/** The line ending of a file, and when an edit changes it. */
module Endings {
  import opened Units
  import opened Trivia
  import Strings
  import opened Scalars
  import opened Json
  import opened Values
  import opened Syntax
  import opened Nodes
  import opened Editor
  import opened TreeEdits
  import opened Layout
  import opened Inserts
  import opened Appends
  import opened Settled
  import Placed

  /** The line ending an edit of the text uses. */
  function EolOf(text: Text): Text {
    if HasCrLf(text) then [CR, LF] else [LF]
  }

  // ----- Pairs in a text made of parts -----

  predicate Meet(a: Text, b: Text) {
    a != [] && b != [] && a[|a| - 1] == CR && b[0] == LF
  }

  lemma CrLfJoins(a: Text, b: Text)
    ensures HasCrLf(a + b) <==> HasCrLf(a) || HasCrLf(b) || Meet(a, b)
  {
    var s := a + b;
    if HasCrLf(a) {
      var i :| 0 <= i < |a| - 1 && a[i] == CR && a[i + 1] == LF;
      assert s[i] == CR && s[i + 1] == LF;
    }
    if HasCrLf(b) {
      var i :| 0 <= i < |b| - 1 && b[i] == CR && b[i + 1] == LF;
      assert s[|a| + i] == CR && s[|a| + i + 1] == LF;
    }
    if Meet(a, b) {
      assert s[|a| - 1] == CR && s[|a| - 1 + 1] == LF;
    }
    if HasCrLf(s) {
      var i :| 0 <= i < |s| - 1 && s[i] == CR && s[i + 1] == LF;
      if i + 1 < |a| {
        assert a[i] == CR && a[i + 1] == LF;
      } else if i >= |a| {
        assert b[i - |a|] == CR && b[i - |a| + 1] == LF;
      }
    }
  }

  lemma NoReturn(s: Text)
    requires CR !in s
    ensures !HasCrLf(s)
  {
  }

  /** No blank at either end. */
  predicate Solid(s: Text) {
    s != [] && s[0] > SPACE && s[|s| - 1] > SPACE
  }

  lemma SolidBetween(a: Text, s: Text, b: Text)
    requires Solid(s)
    ensures HasCrLf(a + s + b) <==> HasCrLf(a) || HasCrLf(s) || HasCrLf(b)
  {
    hide HasCrLf;
    CrLfJoins(a, s);
    CrLfJoins(a + s, b);
  }

  /** A blank run between what cannot end or start a pair. */
  lemma BetweenSolid(a: Text, s: Text, b: Text)
    requires a != [] && a[|a| - 1] > SPACE && b != [] && b[0] > SPACE
    ensures HasCrLf(a + s + b) <==> HasCrLf(a) || HasCrLf(s) || HasCrLf(b)
  {
    hide HasCrLf;
    CrLfJoins(a, s);
    CrLfJoins(a + s, b);
  }

  // ----- What JSON.stringify writes -----

  lemma TreeIsSolid(t: Tree)
    requires Formed(t)
    ensures Solid(Show(t))
  {
    hide Show, Formed;
    TreeBegins(t);
    TreeEnds(t);
  }

  lemma {:induction false} EscapeHasNoReturn(s: Text)
    ensures CR !in Strings.Escape(s)
  {
    if s == [] {
    } else if |s| >= 2 && Strings.IsLead(s[0]) && Strings.IsTrail(s[1]) {
      EscapeHasNoReturn(s[2..]);
    } else {
      EscapeHasNoReturn(s[1..]);
      UnitHasNoReturn(s[0]);
    }
  }

  lemma UnitHasNoReturn(u: Unit)
    ensures CR !in Strings.EscapeUnit(u)
  {
    assert forall n: nat :: n < 16 ==> Strings.HexDigit(n) != CR;
  }

  lemma AtomHasNoReturn(j: Json, gap: Text, line: Text)
    requires !j.Arr? && !j.Obj?
    ensures CR !in Serialize(j, gap, line)
  {
    hide Strings.Escape, ScalarLen;
    if j.Num? { ScalarIsVisible(j.literal); }
    if j.Str? { EscapeHasNoReturn(j.s); }
  }

  lemma {:induction false} SerializeHasNoReturn(j: Json, gap: Text, line: Text)
    requires CR !in gap && CR !in line
    ensures CR !in Serialize(j, gap, line)
    decreases j, 0
  {
    hide SerializeItems, SerializeFields;
    match j
    case Arr(items) => if items != [] { ItemsHaveNoReturn(items, gap, line); }
    case Obj(members) => if members != [] { FieldsHaveNoReturn(members, gap, line); }
    case _ => AtomHasNoReturn(j, gap, line);
  }

  lemma {:induction false} ItemsHaveNoReturn(items: seq<Json>, gap: Text, line: Text)
    requires items != [] && CR !in gap && CR !in line
    ensures CR !in SerializeItems(items, gap, line)
    decreases items, 1
  {
    hide Serialize;
    SerializeHasNoReturn(items[0], gap, line + gap);
    if |items| > 1 {
      ItemsHaveNoReturn(items[1..], gap, line);
    }
  }

  lemma {:induction false} FieldsHaveNoReturn(members: seq<Field>, gap: Text, line: Text)
    requires members != [] && CR !in gap && CR !in line
    ensures CR !in SerializeFields(members, gap, line)
    decreases members, 1
  {
    hide Serialize, Strings.Escape;
    EscapeHasNoReturn(members[0].key);
    SerializeHasNoReturn(members[0].value, gap, line + gap);
    if |members| > 1 {
      FieldsHaveNoReturn(members[1..], gap, line);
    }
  }

  lemma RenderHasNoReturn(value: Json, style: Style, indent: Text, inline: bool)
    requires IsStyle(style) && IsIndent(indent) && (inline || style.eol == [LF])
    ensures CR !in Render(value, style, indent, inline)
  {
    hide Serialize, ReplaceLines;
    if inline {
      SerializeHasNoReturn(value, [], []);
    } else {
      ReplaceSerialized(value, Gap(style.unit), [LF], style.eol + indent);
      assert ReplaceLines([LF], style.eol + indent) == style.eol + indent by { ReplaceLine(style.eol + indent); }
      SerializeHasNoReturn(value, Gap(style.unit), style.eol + indent);
    }
  }

  lemma ReplaceLine(eol: Text)
    ensures ReplaceLines([LF], eol) == eol
  {
  }

  lemma RenderHasCrLf(value: Json, style: Style, indent: Text)
    requires IsStyle(style) && style.eol == [CR, LF] && IsNested(value)
    ensures HasCrLf(Render(value, style, indent, false))
  {
    hide ReplaceLines, SerializeItems, SerializeFields;
    ReplaceSerialized(value, Gap(style.unit), [LF], style.eol + indent);
    ReplaceLine(style.eol + indent);
    var shown := Serialize(value, Gap(style.unit), style.eol + indent);
    assert shown[1] == CR && shown[1 + 1] == LF;
  }

  // ----- A replaced value -----

  /** Where a value is replaced, the line ending stays, but for a value on one line, which has no say in it. */
  lemma ReplacedEnding(before: Text, old_: Text, after: Text, style: Style, indent: Text, inline: bool, value: Json)
    requires Solid(old_) && IsStyle(style) && IsIndent(indent) && style.eol == EolOf(before + old_ + after)
    ensures inline || !IsNested(value) || EolOf(before + Render(value, style, indent, inline) + after) == style.eol
  {
    hide HasCrLf, Render, IsNested, Show, Formed;
    var rendered := Render(value, style, indent, inline);
    SolidBetween(before, old_, after);
    RenderedIsTree(value, style, indent, inline);
    TreeIsSolid(RenderedTree(value, style, indent, inline));
    SolidBetween(before, rendered, after);
    if style.eol == [LF] {
      RenderHasNoReturn(value, style, indent, inline);
      NoReturn(rendered);
    } else if !inline && IsNested(value) {
      RenderHasCrLf(value, style, indent);
    }
  }

  // ----- A first member -----

  lemma MemberIsSolid(key: Text, value: Tree, style: Style)
    requires Formed(value)
    ensures Solid(WrittenMember(key, Show(value)))
    ensures CR !in Show(value) ==> CR !in WrittenMember(key, Show(value))
  {
    hide Show, Formed, Strings.Escape;
    EscapeHasNoReturn(key);
    TreeIsSolid(value);
  }

  /**
   * The one way an edit changes a file's line ending: comments alone are in the object, the last
   * of them is followed by a carriage return on the brace's own line, and a line feed is put
   * after it.
   */
  predicate LoneReturn(text: Text, head: Text, close: nat) {
    !IsSpaces(head) && !StartsLine(text, close) && head != [] && head[|head| - 1] == CR && !HasCrLf(text)
  }

  /** The trivia around a first member holds the style's line ending, or none but a lone one. */
  predicate SidesKeep(sides: Sides, eol: Text, lone: bool) {
    && (eol == [CR, LF] ==> HasCrLf(sides.head) || HasCrLf(sides.tail))
    && (eol == [LF] ==> !HasCrLf(sides.tail) && (HasCrLf(sides.head) <==> lone))
  }

  lemma BlankSides(eol: Text, indent: Text, outer: Text)
    requires IsEol(eol) && IsIndent(indent) && IsIndent(outer)
    ensures SidesKeep(Sides(eol + indent, eol + outer), eol, false)
  {
    hide HasCrLf;
    EolStarts(eol, indent);
    EolStarts(eol, outer);
  }

  lemma AboveSides(head: Text, k: nat, eol: Text, indent: Text)
    requires k <= |head| && IsEol(eol) && IsIndent(indent) && (eol == [LF] ==> !HasCrLf(head))
    ensures SidesKeep(Sides(head[..k] + indent, eol + head[k..]), eol, false)
  {
    hide HasCrLf;
    CutEnding(head, k);
    NoReturn(indent);
    CrLfJoins(head[..k], indent);
    EolStarts(eol, head[k..]);
  }

  lemma BeforeSides(head: Text, eol: Text, indent: Text, outer: Text)
    requires IsEol(eol) && IsIndent(indent) && IsIndent(outer) && (eol == [LF] ==> !HasCrLf(head))
    ensures SidesKeep(Sides(head + (eol + indent), eol + outer), eol, head != [] && head[|head| - 1] == CR)
  {
    hide HasCrLf;
    EolStarts(eol, indent);
    EolStarts(eol, outer);
    CrLfJoins(head, eol + indent);
  }

  lemma SidesEnding(a: Text, head: Text, z: Text, style: Style, at: nat)
    requires |a| == at + 1 && a[at] == LBRACE && IsGap(head) && IsStyle(style) && style.eol == EolOf(a + head + z)
    ensures var text := a + head + z;
      SidesKeep(FirstSides(text, style, at, head), style.eol, LoneReturn(text, head, |a| + |head|))
  {
    hide HasCrLf, LineIndent, StartsLine, LineStart, IsSpaces, IsGap, IsIndent;
    var text := a + head + z;
    LineIndentIsIndent(text, at);
    Placed.UnitIsIndent(text, at, style);
    var outer := LineIndent(text, at);
    var indent := outer + style.unit;
    CrLfJoins(a, head);
    CrLfJoins(a + head, z);
    if IsSpaces(head) {
      BlankSides(style.eol, indent, outer);
    } else if StartsLine(text, at + 1 + |head|) {
      BraceLine(a, head, z);
      AboveSides(head, LineStart(text, at + 1 + |head|) - (at + 1), style.eol, indent);
    } else {
      BeforeSides(head, style.eol, indent, outer);
    }
  }

  lemma EolStarts(eol: Text, more: Text)
    requires IsEol(eol)
    ensures eol == [CR, LF] ==> HasCrLf(eol + more)
    ensures eol == [LF] ==> (HasCrLf(eol + more) <==> HasCrLf(more)) && (IsIndent(more) ==> !HasCrLf(more))
    ensures (eol + more) != [] && (eol + more)[0] == eol[0]
  {
    if eol == [CR, LF] {
      assert (eol + more)[0] == CR && (eol + more)[0 + 1] == LF;
    } else {
      CrLfJoins(eol, more);
    }
  }

  lemma CutEnding(s: Text, k: nat)
    requires k <= |s|
    ensures HasCrLf(s[..k]) || HasCrLf(s[k..]) ==> HasCrLf(s)
  {
    hide HasCrLf;
    assert s == s[..k] + s[k..];
    CrLfJoins(s[..k], s[k..]);
  }

  /** A first member keeps the line ending of the file, but for a lone carriage return. */
  lemma FirstEnding(pre: Text, head: Text, post: Text, style: Style, key: Text, data: Json)
    requires IsStyle(style) && IsGap(head)
    requires var text := pre + Show(Branch(true, head, End)) + post; style.eol == EolOf(text)
    ensures var text := pre + Show(Branch(true, head, End)) + post;
      var next := pre + Show(FirstInserted(text, style, |pre|, head, key, data)) + post;
      EolOf(next) != style.eol <==> LoneReturn(text, head, |pre| + 1 + |head|)
  {
    hide HasCrLf, Show, Formed, FirstSides, IsGap, WrittenMember, LineIndent, RenderedTree, Render, WrittenElem, StartsLine, IsSpaces, IsStyle, IsIndent;
    var text := pre + Show(Branch(true, head, End)) + post;
    var a, z := pre + [LBRACE], [RBRACE] + post;
    EmptyShown(pre, head, post);
    var sides := FirstSides(text, style, |pre|, head);
    var indent := LineIndent(text, |pre|) + style.unit;
    Placed.UnitIsIndent(text, |pre|, style);
    var value := RenderedFirst(text, style, |pre|, data);
    RenderedIsTree(data, style, indent, false);
    MemberIsSolid(key, value, style);
    var member := WrittenMember(key, Show(value));
    FirstSidesAreGaps(a, head, z, style, |pre|);
    InsertedBlock(sides.head, key, value, sides.tail, pre, post);
    BetweenSolid(a, head, z);
    BetweenSolid(a, sides.head + member + sides.tail, z);
    SolidBetween(sides.head, member, sides.tail);
    SidesEnding(a, head, z, style, |pre|);
    if style.eol == [LF] {
      RenderHasNoReturn(data, style, indent, false);
      NoReturn(member);
    }
  }

  // ----- A last member -----

  /** A last member between the parts of the text: `p` ends with a value or a comma, and `t` with no carriage return a line feed could join. */
  lemma LastParts(p: Text, comma: Text, t: Text, lead: Text, member: Text, end: Text, z: Text, eol: Text)
    requires p != [] && p[|p| - 1] > SPACE && Solid(member) && (comma == [] || comma == [COMMA]) && (end == [] || end == [COMMA])
    requires z != [] && eol == EolOf(p + (t + z))
    requires eol == [LF] ==> CR !in member && CR !in lead
    requires eol == [CR, LF] ==> HasCrLf(lead) || (t == [] && lead == [SPACE])
    requires t != [] && eol == [LF] && lead != [SPACE] ==> t[|t| - 1] != CR
    ensures EolOf(p + comma + t + (lead + member + end) + z) == eol
  {
    hide HasCrLf;
    var m := member + end;
    assert Solid(m);
    Assoc(lead, member, end);
    Assoc(p + comma + t, lead, m);
    assert p + comma + t + (lead + member + end) + z == p + comma + t + lead + m + z;
    SolidBetween(p + comma + t + lead, m, z);
    CrLfJoins(t, z);
    CrLfJoins(p, t + z);
    CrLfJoins(p, comma);
    CrLfJoins(p + comma, t);
    CrLfJoins(p + comma + t, lead);
    CommaEnding(comma);
    if eol == [LF] {
      NoReturn(member);
      NoReturn(lead);
      CrLfJoins(member, end);
      CommaEnding(end);
    } else if !HasCrLf(lead) {
      assert t + z == z;
    }
  }

  lemma CommaEnding(comma: Text)
    requires comma == [] || comma == [COMMA]
    ensures !HasCrLf(comma)
  {
  }

  /** The trivia that stays in front of an added member ends in no carriage return that a line feed follows. */
  lemma CutBeforePair(pre: Text, head: Text, es: Elems, post: Text, style: Style)
    requires es.More? && Formed(Branch(true, head, es)) && IsStyle(style)
    requires Clear(pre + Show(Branch(true, head, es)) + post, NodeOf(Branch(true, head, es), |pre|))
    ensures var text := pre + Show(Branch(true, head, es)) + post;
      var node, t := NodeOf(Branch(true, head, es), |pre|), LastTrivia(LastElem(es).tail);
      && node.members.Some? && node.members.value != []
      && CutOf(text, node) <= |t|
      && var cut := CutOf(text, node);
      && (IsInline(text, node) ==> cut == 0)
      && (cut > 0 && !HasCrLf(text) ==> t[cut - 1] != CR)
  {
    hide Show, IsGap, Skip, IsInline, NodeOf, Slice, UpToTrivia, TriviaLineEnd, Formed, HasCrLf, CutOf, Landing, Anchor, StartsBreak;
    var tree := Branch(true, head, es);
    var text, node := pre + Show(tree) + post, NodeOf(tree, |pre|);
    var t := LastTrivia(LastElem(es).tail);
    AnchorIs(pre, head, es);
    LastFormed(head, es);
    ObjectText(pre, head, es, post);
    UpToTriviaEnds(pre, head, es);
    CutIsGaps(pre, head, es, post, style);
    var p, cut := UpToTrivia(pre, head, es), CutOf(text, node);
    CutIs(text, node);
    if cut > 0 && !HasCrLf(text) {
      LineEndIs(text, |p|, |p|);
      PairAt(p, t, [RBRACE] + post, cut);
    }
  }

  lemma CutIs(text: Text, node: Node)
    requires node.members.Some? && node.members.value != [] && Anchor(node) <= |text|
    ensures IsInline(text, node) ==> CutOf(text, node) == 0
    ensures CutOf(text, node) > 0 ==> TriviaLineEnd(text, Anchor(node), Anchor(node)) == Anchor(node) + CutOf(text, node)
  {
    hide IsInline, TriviaLineEnd, Anchor;
  }

  lemma PairAt(p: Text, t: Text, z: Text, cut: nat)
    requires 0 < cut <= |t| && StartsBreak((p + (t + z))[|p| + cut..]) && !HasCrLf(p + (t + z))
    ensures t[cut - 1] != CR
  {
    var text, at := p + (t + z), |p| + cut;
    assert text[at - 1] == t[cut - 1];
    assert text[at..][0] == text[at];
    if StartsWith2(text[at..], CR, LF) {
      PairIn(text, at);
    } else {
      assert text[at - 1 + 1] == LF;
    }
  }

  lemma PairIn(text: Text, at: nat)
    requires at <= |text| && StartsWith2(text[at..], CR, LF)
    ensures HasCrLf(text)
  {
    assert text[at] == CR && text[at + 1] == LF;
  }

  lemma LastInsertedText(pre: Text, head: Text, es: Elems, post: Text, style: Style, key: Text, data: Json)
    requires es.More?
    ensures var tail, text := LastElem(es).tail, pre + Show(Branch(true, head, es)) + post;
      var node, t := NodeOf(Branch(true, head, es), |pre|), LastTrivia(LastElem(es).tail);
      && node.members.Some? && node.members.value != []
      && var cut := CutOf(text, node);
      && (cut <= |t| ==>
        pre + Show(LastInserted(text, style, node, head, es, key, data)) + post ==
          UpToTrivia(pre, head, es) + (if tail.Plain? then [COMMA] else []) + t[..cut]
          + (LastLead(text, style, node) + WrittenMember(key, Show(RenderedLast(text, style, node, data))) + (if tail.Plain? then [] else [COMMA]))
          + (t[cut..] + ([RBRACE] + post)))
  {
    hide Show, NodeOf, UpToTrivia, WrittenMember, Extended, WrittenElem, CutOf, LastLead, RenderedLast;
    var text, node := pre + Show(Branch(true, head, es)) + post, NodeOf(Branch(true, head, es), |pre|);
    AnchorIs(pre, head, es);
    var cut := CutOf(text, node);
    if cut <= |LastTrivia(LastElem(es).tail)| {
      EditedText(pre, head, es, post, cut, LastLead(text, style, node), key, RenderedLast(text, style, node, data));
    }
  }

  /** A last member keeps the line ending of the file. */
  lemma LastEnding(pre: Text, head: Text, es: Elems, post: Text, style: Style, key: Text, data: Json)
    requires es.More? && Formed(Branch(true, head, es)) && IsStyle(style)
    requires Clear(pre + Show(Branch(true, head, es)) + post, NodeOf(Branch(true, head, es), |pre|))
    requires style.eol == EolOf(pre + Show(Branch(true, head, es)) + post)
    ensures var tree := Branch(true, head, es);
      var text, node := pre + Show(tree) + post, NodeOf(tree, |pre|);
      && node.members.Some? && node.members.value != [] && CutOf(text, node) <= |LastTrivia(LastElem(es).tail)|
      && EolOf(pre + Show(LastInserted(text, style, node, head, es, key, data)) + post) == style.eol
  {
    hide HasCrLf, Show, NodeOf, Formed, Clear, IsInline, LastIndent, UpToTrivia, WrittenMember, RenderedTree, Render, CutOf, IsIndent, EolOf;
    hide LastInserted, LastLead, IsGap, FormedElems, FormedElem, Solid, LastTrivia;
    var tree, tail := Branch(true, head, es), LastElem(es).tail;
    var text, node := pre + Show(tree) + post, NodeOf(tree, |pre|);
    CutBeforePair(pre, head, es, post, style);
    LastInsertedText(pre, head, es, post, style, key, data);
    LastFormed(head, es);
    UpToTriviaEnds(pre, head, es);
    ObjectText(pre, head, es, post);
    MemberEnding(text, style, node, key, data);
    var p, t, cut := UpToTrivia(pre, head, es), LastTrivia(tail), CutOf(text, node);
    assert t == t[..cut] + t[cut..];
    Assoc(t[..cut], t[cut..], [RBRACE] + post);
    EolIs(text);
    LastParts(p, if tail.Plain? then [COMMA] else [], t[..cut], LastLead(text, style, node),
      WrittenMember(key, Show(RenderedLast(text, style, node, data))), if tail.Plain? then [] else [COMMA],
      t[cut..] + ([RBRACE] + post), style.eol);
  }

  lemma MemberEnding(text: Text, style: Style, node: Node, key: Text, data: Json)
    requires node.members.Some? && node.members.value != [] && IsStyle(style)
    ensures var lead, inline := LastLead(text, style, node), IsInline(text, node);
      var member := WrittenMember(key, Show(RenderedLast(text, style, node, data)));
      && Solid(member) && (style.eol == [LF] ==> CR !in member && CR !in lead)
      && (inline ==> lead == [SPACE]) && (style.eol == [CR, LF] && !inline ==> HasCrLf(lead))
  {
    hide HasCrLf, Show, Formed, IsInline, LastIndent, WrittenMember, RenderedTree, Render, IsIndent, LastLead;
    LastIndentIsIndent(text, style, node);
    var indent, inline := LastIndent(text, style, node), IsInline(text, node);
    RenderedIsTree(data, style, indent, inline);
    MemberIsSolid(key, RenderedLast(text, style, node, data), style);
    LeadEnding(text, style, node);
    if style.eol == [LF] {
      RenderHasNoReturn(data, style, indent, inline);
    }
  }

  lemma EolIs(text: Text)
    ensures EolOf(text) == [LF] <==> !HasCrLf(text)
    ensures EolOf(text) == [LF] || EolOf(text) == [CR, LF]
  {
  }

  lemma LeadEnding(text: Text, style: Style, node: Node)
    requires node.members.Some? && node.members.value != [] && IsStyle(style) && IsIndent(LastIndent(text, style, node))
    ensures var lead := LastLead(text, style, node);
      && (IsInline(text, node) ==> lead == [SPACE])
      && (style.eol == [LF] ==> CR !in lead)
      && (style.eol == [CR, LF] && !IsInline(text, node) ==> HasCrLf(lead))
  {
    hide HasCrLf, IsInline, LastIndent;
    EolStarts(style.eol, LastIndent(text, style, node));
  }
}
