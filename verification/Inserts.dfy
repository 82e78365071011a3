/** Each way an edit writes a member, as an edit of the concrete syntax. */
module Inserts {
  import opened Units
  import opened Trivia
  import Strings
  import opened Json
  import opened Syntax
  import opened Nodes
  import opened Editor
  import opened Layout

  lemma SpliceAt(a: Text, old_: Text, b: Text, insert: Text)
    ensures Splice(a + old_ + b, |a|, |a| + |old_|, insert) == a + insert + b
  {
    var text := a + old_ + b;
    assert Slice(text, 0, |a|) == a;
    assert Slice(text, |a| + |old_|, |text|) == b;
  }

  lemma SpliceIn(a: Text, b: Text, insert: Text)
    ensures Splice(a + b, |a|, |a|, insert) == a + insert + b
  {
  }

  lemma SliceAt(a: Text, m: Text, b: Text)
    ensures Slice(a + m + b, |a|, |a| + |m|) == m
  {
  }

  lemma {:induction false} LineStartIs(text: Text, offset: nat)
    requires offset <= |text|
    ensures var s := LineStart(text, offset);
      && (s > 0 ==> text[s - 1] == LF) && LF !in text[s..offset]
  {
    if offset > 0 && text[offset - 1] != LF {
      LineStartIs(text, offset - 1);
      var s := LineStart(text, offset);
      assert text[s..offset] == text[s..offset - 1] + [text[offset - 1]];
    }
  }

  /** A member as an edit writes it. */
  function WrittenElem(key: Text, value: Tree, tail: Tail): Elem {
    Elem(Keyed(Strings.Quote(key), [], [SPACE]), value, tail)
  }

  lemma WrittenIsElem(key: Text, value: Tree, tail: Tail)
    requires Formed(value) && FormedTail(tail)
    ensures var e := WrittenElem(key, value, tail);
      && ShowElem(e) == WrittenMember(key, Show(value)) + ShowTail(tail)
      && FormedElem(true, e) && KeyOf(e.lead) == key
  {
    hide Show, Formed, FormedTail, ShowTail, Strings.IsString, Strings.Unquote, Strings.Quote, IsGap;
    KeyIsPrinted(key, [SPACE]);
    assert IsGap([]) && IsGap([SPACE]) by { BlanksAreGap([]); BlanksAreGap([SPACE]); }
    WrittenText(Strings.Quote(key), Show(value));
  }

  lemma WrittenText(key: Text, value: Text)
    ensures key + [] + [COLON] + [SPACE] + value == key + [COLON, SPACE] + value
  {
  }

  /** A gap whose rest after a line feed holds no slash is cut there into two gaps. */
  lemma {:induction false} CutAfterLine(a: Text, b: Text)
    requires IsGap(a + b) && SLASH !in b && (a == [] || a[|a| - 1] == LF)
    ensures IsGap(a) && IsGap(b)
    decreases |a|
  {
    hide FirstPiece, IsClosed;
    if a == [] {
      assert a + b == b;
    } else {
      PieceInFirst(a, b);
      var n := FirstPiece(a + b).len;
      assert (a + b)[n..] == a[n..] + b;
      CutAfterLine(a[n..], b);
    }
  }

  lemma PieceInFirst(a: Text, b: Text)
    requires a != [] && IsClosed(a + b, FirstPiece(a + b)) && SLASH !in b && a[|a| - 1] == LF
    ensures var p := FirstPiece(a + b);
      p.Piece? && p.len <= |a| && FirstPiece(a) == p && IsClosed(a, p)
  {
    hide CloseFrom;
    var s := a + b;
    var p := FirstPiece(s);
    if IsBlank(s[0]) {
    } else if StartsWith2(s, SLASH, SLASH) {
      FindIn(a, b, LF);
      assert a[|a| - 1] in a;
      assert p.len < |a|;
    } else {
      assert s[p.len - 1] == SLASH;
      assert p.len <= |a|;
    }
    FirstWithin(a, b);
    LineIsClosed(a);
  }

  lemma FirstWithin(a: Text, b: Text)
    requires FirstPiece(a + b).Piece? && FirstPiece(a + b).len <= |a|
    ensures FirstPiece(a) == FirstPiece(a + b)
  {
    hide FirstPiece;
    PieceWithin(a + b, |a|);
    assert (a + b)[..|a|] == a;
  }

  lemma LineIsClosed(a: Text)
    requires a != [] && a[|a| - 1] == LF && FirstPiece(a).Piece?
    ensures IsClosed(a, FirstPiece(a))
  {
  }

  lemma ShownInserted(pre: Text, head: Text, elem: Elem, post: Text)
    ensures pre + Show(Branch(true, head, More(elem, End))) + post
         == (pre + [LBRACE]) + (head + ShowElem(elem)) + ([RBRACE] + post)
  {
    hide ShowElem;
    var shown := ShowElem(elem);
    assert ShowElems(true, More(elem, End)) == shown + [RBRACE];
    Assoc(head, shown, [RBRACE]);
    Assoc(pre, [LBRACE], head + shown + [RBRACE]);
    Assoc([LBRACE], head, shown + [RBRACE]);
    Assoc(pre + [LBRACE], head + shown, [RBRACE]);
    Assoc(pre + [LBRACE] + (head + shown), [RBRACE], post);
  }

  lemma SplicedBlock(a: Text, head: Text, z: Text, lead: Text, member: Text, eol: Text, objectIndent: Text)
    ensures Splice(a + head + z, |a|, |a| + |head|, lead + member + eol + objectIndent)
         == a + (lead + member + (eol + objectIndent)) + z
  {
    hide Splice;
    SpliceAt(a, head, z, lead + member + eol + objectIndent);
    Assoc(lead + member, eol, objectIndent);
  }

  lemma SplicedAfter(a: Text, head: Text, z: Text, lead: Text, member: Text, eol: Text, objectIndent: Text)
    ensures Splice(a + head + z, |a| + |head|, |a| + |head|, lead + member + eol + objectIndent)
         == a + (head + lead + member + (eol + objectIndent)) + z
  {
    hide Splice;
    SpliceIn(a + head, z, lead + member + eol + objectIndent);
    Assoc(lead + member, eol, objectIndent);
    Assoc(a, head, lead + member + (eol + objectIndent));
    Assoc(head, lead + member, eol + objectIndent);
    Assoc(head, lead, member);
  }

  lemma SplicedInside(a: Text, head: Text, z: Text, k: nat, indent: Text, member: Text, eol: Text)
    requires k <= |head|
    ensures Splice(a + head + z, |a| + k, |a| + k, indent + member + eol)
         == a + (head[..k] + indent + member + (eol + head[k..])) + z
  {
    hide Splice;
    var h, t := head[..k], head[k..];
    assert head == h + t;
    Assoc(a, h, t);
    Assoc(a + h, t, z);
    SpliceIn(a + h, t + z, indent + member + eol);
    Assoc(a, h, indent + member + eol);
    Assoc(h, indent + member, eol);
    Assoc(h, indent, member);
    Assoc(h + indent + member, eol, t);
    Assoc(a, h + indent + member + eol, t);
    Assoc(a + (h + indent + member + eol), t, z);
  }

  /** Where the line of an empty object's closing brace starts, when only space precedes the brace on it. */
  lemma BraceLine(a: Text, head: Text, z: Text)
    requires a != [] && a[|a| - 1] == LBRACE && IsGap(head) && !IsSpaces(head)
    requires StartsLine(a + head + z, |a| + |head|)
    ensures var start := LineStart(a + head + z, |a| + |head|);
      |a| < start <= |a| + |head| && IsGap(head[..start - |a|]) && IsGap(head[start - |a|..])
  {
    hide IsGap, LineStart, IsSpaces;
    var text, close := a + head + z, |a| + |head|;
    var start := LineStart(text, close);
    LineStartIs(text, close);
    var line := text[start..close];
    assert Slice(text, start, close) == line;
    AfterBrace(text, |a|, start, close);
    assert text[|a|..close] == head;
    var k := start - |a|;
    assert line == head[k..];
    assert head[k - 1] == text[start - 1];
    CutHead(head, k);
  }

  lemma CutHead(head: Text, k: nat)
    requires IsGap(head) && 0 < k <= |head| && head[k - 1] == LF && IsSpaces(head[k..])
    ensures IsGap(head[..k]) && IsGap(head[k..])
  {
    hide IsGap, IsSpaces;
    assert head == head[..k] + head[k..];
    SpacesHaveNoSlash(head[k..]);
    CutAfterLine(head[..k], head[k..]);
  }

  lemma SpacesHaveNoSlash(s: Text)
    requires IsSpaces(s)
    ensures SLASH !in s
  {
  }

  /** Space alone does not reach back to an opening brace, nor fills what follows it if that is not space. */
  lemma AfterBrace(text: Text, from: nat, start: nat, close: nat)
    requires 0 < from <= close <= |text| && start <= close && text[from - 1] == LBRACE
    requires IsSpaces(text[start..close]) && !IsSpaces(text[from..close])
    ensures start > from
  {
  }

  /** An object holding one written member, in terms of the spliced text. */
  lemma InsertedBlock(head: Text, key: Text, value: Tree, tail: Text, pre: Text, post: Text)
    requires IsGap(head) && IsGap(tail) && Formed(value)
    ensures var elem := WrittenElem(key, value, Plain(tail));
      var after := Branch(true, head, More(elem, End));
      && Formed(after) && KeyOf(elem.lead) == key
      && pre + Show(after) + post == (pre + [LBRACE]) + (head + WrittenMember(key, Show(value)) + tail) + ([RBRACE] + post)
  {
    hide Show, ShowElem, FormedElem, IsGap, KeyOf, WrittenMember;
    var elem := WrittenElem(key, value, Plain(tail));
    WrittenIsElem(key, value, Plain(tail));
    ShownInserted(pre, head, elem, post);
    Regroup3(head, WrittenMember(key, Show(value)), tail);
    OneElemFormed(elem);
  }

  lemma OneElemFormed(elem: Elem)
    requires FormedElem(true, elem)
    ensures FormedElems(true, More(elem, End))
  {
    hide FormedElem;
  }

  lemma Regroup3(a: Text, b: Text, c: Text)
    ensures a + (b + c) == a + b + c
  {
  }

  /** The trivia before and after the first member written into an empty object. */
  datatype Sides = Sides(head: Text, tail: Text)

  function FirstSides(text: Text, style: Style, at: nat, head: Text): Sides {
    var objectIndent := LineIndent(text, at);
    var indent := objectIndent + style.unit;
    var close := at + 1 + |head|;
    var start := LineStart(text, close);
    if IsSpaces(head) then Sides(style.eol + indent, style.eol + objectIndent)
    else if StartsLine(text, close) && at + 1 <= start then
      var k := start - (at + 1);
      Sides(head[..k] + indent, style.eol + head[k..])
    else Sides(head + (style.eol + indent), style.eol + objectIndent)
  }

  lemma FirstSidesAreGaps(a: Text, head: Text, z: Text, style: Style, at: nat)
    requires IsStyle(style) && IsGap(head) && |a| == at + 1 && a[at] == LBRACE
    ensures var sides := FirstSides(a + head + z, style, at, head); IsGap(sides.head) && IsGap(sides.tail)
  {
    hide IsGap, LineIndent, LineStart, StartsLine;
    var text := a + head + z;
    LineIndentIsIndent(text, at);
    var objectIndent := LineIndent(text, at);
    BlanksAreGap(style.eol + (objectIndent + style.unit));
    BlanksAreGap(objectIndent + style.unit);
    BlanksAreGap(style.eol + objectIndent);
    BlanksAreGap(style.eol);
    if IsSpaces(head) {
    } else if StartsLine(text, at + 1 + |head|) {
      BraceLine(a, head, z);
      var k := LineStart(text, at + 1 + |head|) - (at + 1);
      GapsJoin(head[..k], objectIndent + style.unit);
      GapsJoin(style.eol, head[k..]);
    } else {
      GapsJoin(head, style.eol + (objectIndent + style.unit));
    }
  }

  function RenderedFirst(text: Text, style: Style, at: nat, data: Json): Tree {
    RenderedTree(data, style, LineIndent(text, at) + style.unit, false)
  }

  /** The object that replaces an empty one. */
  function FirstInserted(text: Text, style: Style, at: nat, head: Text, key: Text, data: Json): Tree {
    var sides := FirstSides(text, style, at, head);
    Branch(true, sides.head, More(WrittenElem(key, RenderedFirst(text, style, at, data), Plain(sides.tail)), End))
  }

  predicate IsFirstNode(a: Text, head: Text, node: Node) {
    |a| == node.start + 1 && a[node.start] == LBRACE && node.end == |a| + |head| + 1
  }

  lemma FirstOverBlanks(a: Text, head: Text, z: Text, style: Style, node: Node, key: Text, data: Json)
    requires IsFirstNode(a, head, node) && IsSpaces(head)
    ensures FirstText(a, head, z, style, node, key, data)
  {
    hide Render, LineIndent, WrittenMember, IsSpaces, StartsLine, LineStart, Splice, Slice;
    var text, objectIndent := a + head + z, LineIndent(a + head + z, node.start);
    var indent := objectIndent + style.unit;
    SliceAt(a, head, z);
    SplicedBlock(a, head, z, style.eol + indent, WrittenMember(key, Render(data, style, indent, false)), style.eol, objectIndent);
  }

  lemma FirstAboveBrace(a: Text, head: Text, z: Text, style: Style, node: Node, key: Text, data: Json)
    requires IsFirstNode(a, head, node) && IsGap(head) && !IsSpaces(head) && StartsLine(a + head + z, |a| + |head|)
    ensures FirstText(a, head, z, style, node, key, data)
  {
    hide IsGap, Render, LineIndent, WrittenMember, IsSpaces, StartsLine, LineStart, Splice, Slice, InsertFirst, FirstSides;
    var text := a + head + z;
    var indent := LineIndent(text, node.start) + style.unit;
    SliceAt(a, head, z);
    BraceLine(a, head, z);
    var close := |a| + |head|;
    assert close == node.start + 1 + |head| == node.end - 1;
    var k := LineStart(text, close) - |a|;
    var member := WrittenMember(key, Render(data, style, indent, false));
    SidesAboveBrace(text, style, node, head, k);
    SpliceAboveBrace(text, style, node, head, key, data, |a| + k);
    SplicedInside(a, head, z, k, indent, member, style.eol);
  }

  lemma SidesAboveBrace(text: Text, style: Style, node: Node, head: Text, k: nat)
    requires !IsSpaces(head) && StartsLine(text, node.start + 1 + |head|)
    requires k <= |head| && LineStart(text, node.start + 1 + |head|) == node.start + 1 + k
    ensures FirstSides(text, style, node.start, head)
         == Sides(head[..k] + (LineIndent(text, node.start) + style.unit), style.eol + head[k..])
  {
    hide IsSpaces, StartsLine, LineStart, LineIndent;
  }

  lemma SpliceAboveBrace(text: Text, style: Style, node: Node, head: Text, key: Text, data: Json, at: nat)
    requires node.end == node.start + 2 + |head| && Slice(text, node.start + 1, node.end - 1) == head
    requires !IsSpaces(head) && StartsLine(text, node.end - 1) && LineStart(text, node.end - 1) == at
    ensures var indent := LineIndent(text, node.start) + style.unit;
      InsertFirst(text, style, node, key, data)
        == Splice(text, at, at, indent + WrittenMember(key, Render(data, style, indent, false)) + style.eol)
  {
    hide IsSpaces, StartsLine, LineStart, LineIndent, Splice, Slice, Render, WrittenMember;
  }

  lemma FirstBeforeBrace(a: Text, head: Text, z: Text, style: Style, node: Node, key: Text, data: Json)
    requires IsFirstNode(a, head, node) && !IsSpaces(head) && !StartsLine(a + head + z, |a| + |head|)
    ensures FirstText(a, head, z, style, node, key, data)
  {
    hide Render, LineIndent, WrittenMember, IsSpaces, StartsLine, LineStart, Splice, Slice;
    var text, objectIndent := a + head + z, LineIndent(a + head + z, node.start);
    var indent := objectIndent + style.unit;
    SliceAt(a, head, z);
    SplicedAfter(a, head, z, style.eol + indent, WrittenMember(key, Render(data, style, indent, false)), style.eol, objectIndent);
  }

  /** What an empty object's text becomes, in terms of the trivia before and after the member. */
  predicate FirstText(a: Text, head: Text, z: Text, style: Style, node: Node, key: Text, data: Json) {
    var text := a + head + z;
    var sides := FirstSides(text, style, node.start, head);
    var member := WrittenMember(key, Render(data, style, LineIndent(text, node.start) + style.unit, false));
    InsertFirst(text, style, node, key, data) == a + (sides.head + member + sides.tail) + z
  }

  /** A first member is inserted into an empty object, and none of its comments is touched. */
  lemma FirstIsInserted(pre: Text, head: Text, post: Text, style: Style, key: Text, data: Json)
    requires IsStyle(style) && IsGap(head)
    ensures var tree := Branch(true, head, End);
      var text := pre + Show(tree) + post;
      var after := FirstInserted(text, style, |pre|, head, key, data);
      && InsertFirst(text, style, NodeOf(tree, |pre|), key, data) == pre + Show(after) + post
      && Formed(after) && KeyOf(after.elems.elem.lead) == key && ValueOf(after.elems.elem.value) == Meaning(data)
  {
    hide Formed, ValueOf, Meaning, RenderedTree, Render, LineIndent, IsGap, WrittenMember, KeyOf, ShowElem, InsertFirst, FirstSides, WrittenElem, Show, StartsLine;
    var text := pre + Show(Branch(true, head, End)) + post;
    var at := |pre|;
    var a, z := pre + [LBRACE], [RBRACE] + post;
    var node := NodeOf(Branch(true, head, End), at);
    EmptyShown(pre, head, post);
    LineIndentIsIndent(text, at);
    RenderedIsTree(data, style, LineIndent(text, at) + style.unit, false);
    if IsSpaces(head) { FirstOverBlanks(a, head, z, style, node, key, data); }
    else if StartsLine(a + head + z, |a| + |head|) { FirstAboveBrace(a, head, z, style, node, key, data); }
    else { FirstBeforeBrace(a, head, z, style, node, key, data); }
    FirstSidesAreGaps(a, head, z, style, at);
    var sides := FirstSides(text, style, at, head);
    var value := RenderedFirst(text, style, at, data);
    InsertedBlock(sides.head, key, value, sides.tail, pre, post);
    assert WrittenElem(key, value, Plain(sides.tail)).value == value by { WrittenHolds(key, value, Plain(sides.tail)); }
  }

  lemma EmptyShown(pre: Text, head: Text, post: Text)
    ensures var t := Branch(true, head, End);
      && Show(t) == [LBRACE] + head + [RBRACE]
      && pre + Show(t) + post == (pre + [LBRACE]) + head + ([RBRACE] + post)
  {
    Assoc(pre, [LBRACE] + head, [RBRACE]);
    Assoc(pre, [LBRACE], head);
    Assoc(pre + [LBRACE] + head, [RBRACE], post);
  }

  lemma WrittenHolds(key: Text, value: Tree, tail: Tail)
    ensures WrittenElem(key, value, tail).value == value && WrittenElem(key, value, tail).tail == tail
  {
  }
}
