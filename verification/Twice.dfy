/** An edit made again changes nothing, but for the one way it changes the line ending of the file. */
module Twice {
  import opened Units
  import opened Trivia
  import opened Json
  import opened Values
  import opened Syntax
  import opened Nodes
  import opened Editor
  import opened TreeEdits
  import opened Layout
  import opened Inserts
  import opened Appends
  import opened Commutes
  import opened Documents
  import opened JsonEdits
  import opened Lines
  import opened Settled
  import opened Placed
  import opened Endings

  // ----- The unit of indentation -----

  /** One step of indentation, from that of the object and that of its first member on a line. */
  function UnitOf(outer: Text, first: Option<Text>): Text {
    var unit := match first case None => [] case Some(indent) => Slice(indent, |outer|, |indent|);
    if unit == [] then [SPACE, SPACE] else unit
  }

  /** The first member on a line, told from the tree. */
  lemma FirstOnLineOf(pre: Text, tree: Tree, post: Text)
    requires Formed(tree) && tree.Branch? && tree.braces
    ensures var text, node := pre + Show(tree) + post, NodeOf(tree, |pre|);
      node.members.Some? && IndentOf(text, FirstOnLine(text, node.members.value)) == UnitFrom(tree.head, tree.elems)
  {
    hide IndentOf, FirstOnLine, UnitFrom, ShowElems, FormedElems, IsGap, MembersOf;
    BranchFormed(tree.head, tree.elems);
    CommaIsSpaceless();
    var shown := ShowElems(true, tree.elems);
    FirstOnLineIs(pre, LBRACE, tree.head, tree.elems, post);
    AfterHead(pre, tree.head, shown, post);
  }

  lemma AfterHead(pre: Text, head: Text, shown: Text, post: Text)
    ensures pre + ([LBRACE] + head + shown) + post == pre + [LBRACE] + head + (shown + post)
  {
    Assoc(pre, [LBRACE] + head, shown);
    Assoc(pre, [LBRACE], head);
    Assoc(pre + [LBRACE] + head, shown, post);
  }

  lemma StyleIs(pre: Text, tree: Tree, post: Text)
    requires Formed(tree) && tree.Branch? && tree.braces
    ensures var text, node := pre + Show(tree) + post, NodeOf(tree, |pre|);
      && node.members.Some?
      && StyleOf(text, node) == Style(EolOf(text), UnitOf(LineIndent(pre, |pre|), UnitFrom(tree.head, tree.elems)))
  {
    hide LineIndent, HasCrLf, FirstOnLine, UnitFrom, Show, Formed, StartsLine;
    FirstOnLineOf(pre, tree, post);
    Assoc(pre, Show(tree), post);
    LinePrefix(pre, Show(tree) + post, |pre|);
  }

  /** The first member on a line stays the same, or is the added one, indented one step. */
  predicate UnitKept(outer: Text, unit: Text, tree: Tree, after: Tree) {
    && tree.Branch? && after.Branch?
    && var was, now := UnitFrom(tree.head, tree.elems), UnitFrom(after.head, after.elems);
    now == was || (was.None? && now == Some(outer + unit))
  }

  lemma KeptUnitIs(outer: Text, tree: Tree, after: Tree)
    requires tree.Branch? && UnitKept(outer, UnitOf(outer, UnitFrom(tree.head, tree.elems)), tree, after)
    ensures UnitOf(outer, UnitFrom(after.head, after.elems)) == UnitOf(outer, UnitFrom(tree.head, tree.elems))
  {
    hide UnitFrom;
  }

  lemma FirstUnit(pre: Text, head: Text, post: Text, style: Style, key: Text, data: Json)
    requires IsGap(head) && IsStyle(style)
    ensures var tree := Branch(true, head, End);
      var text := pre + Show(tree) + post;
      UnitKept(LineIndent(text, |pre|), style.unit, tree, FirstInserted(text, style, |pre|, head, key, data))
  {
    hide Show, IsGap, LineIndent, IsIndent, FirstSides, WrittenElem, RenderedFirst, GapStarts, IsStyle;
    var text := pre + Show(Branch(true, head, End)) + post;
    UnitIsIndent(text, |pre|, style);
    EmptyShown(pre, head, post);
    var x := FirstSidesLine(pre + [LBRACE], head, [RBRACE] + post, style, |pre|);
    IndentLine(x, LineIndent(text, |pre|) + style.unit);
  }

  lemma {:induction false} NoneOnLine(text: Text, members: seq<Member>, i: nat)
    requires FirstOnLine(text, members).None? && i < |members|
    ensures !StartsLine(text, members[i].keyStart)
  {
    if i > 0 {
      NoneOnLine(text, members[1..], i - 1);
    }
  }

  lemma LastUnit(pre: Text, head: Text, es: Elems, post: Text, style: Style, key: Text, data: Json)
    requires es.More? && Formed(Branch(true, head, es)) && IsStyle(style)
    requires Clear(pre + Show(Branch(true, head, es)) + post, NodeOf(Branch(true, head, es), |pre|))
    ensures var tree := Branch(true, head, es);
      var text, node := pre + Show(tree) + post, NodeOf(tree, |pre|);
      && CutOf(text, node) <= |LastTrivia(LastElem(es).tail)|
      && UnitKept(LineIndent(text, |pre|), style.unit, tree, LastInserted(text, style, node, head, es, key, data))
  {
    hide Show, NodeOf, LastIndent, LineIndent, IsIndent, WrittenElem, Extended, IsInline, Clear, CutOf, IsGap, Formed, UnitFrom, GapStarts, RenderedLast, FirstOnLine;
    var tree := Branch(true, head, es);
    var text, node := pre + Show(tree) + post, NodeOf(tree, |pre|);
    CutIsGaps(pre, head, es, post, style);
    CutBeforePair(pre, head, es, post, style);
    var cut, lead := CutOf(text, node), LastLead(text, style, node);
    var tail := LastElem(es).tail;
    var t := LastTrivia(tail)[..cut];
    UnitExtended(head, es, OldTail(tail, cut, lead),
      WrittenElem(key, RenderedLast(text, style, node, data), NewTail(tail, cut)));
    if IsInline(text, node) {
      assert t + lead == [SPACE];
      SpaceStartsNone();
    } else if UnitFrom(head, es).None? {
      var indent := LastIndent(text, style, node);
      LastIndentIsIndent(text, style, node);
      Assoc(t, style.eol, indent);
      IndentLine(t + style.eol, indent);
      StepsIn(pre, head, es, post, style);
    }
  }

  lemma SpaceStartsNone()
    ensures !GapStarts([SPACE])
  {
    assert LineStart([SPACE], 0) == 0;
  }

  /** Where no member starts a line, an added one is indented one step. */
  lemma StepsIn(pre: Text, head: Text, es: Elems, post: Text, style: Style)
    requires es.More? && Formed(Branch(true, head, es)) && UnitFrom(head, es).None?
    ensures var text, node := pre + Show(Branch(true, head, es)) + post, NodeOf(Branch(true, head, es), |pre|);
      && node.members.Some? && node.members.value != []
      && LastIndent(text, style, node) == LineIndent(text, |pre|) + style.unit
  {
    hide LineIndent, StartsLine, FirstOnLine, UnitFrom, Show, Formed;
    var tree := Branch(true, head, es);
    var text, node := pre + Show(tree) + post, NodeOf(tree, |pre|);
    AnchorIs(pre, head, es);
    FirstOnLineOf(pre, tree, post);
    NoneOnLine(text, node.members.value, |node.members.value| - 1);
  }

  // ----- The edit of an object, and the member it leaves -----

  /** The walk of `path` ends at an object of comments alone, the last one followed by a lone carriage return. */
  predicate EndsAtReturn(text: Text, node: Node, path: seq<Text>)
    decreases |path|
  {
    && path != [] && node.members.Some?
    && var matches := Matching(node.members.value, path[0]);
    if matches == [] then
      && node.members.value == [] && node.end > 0
      && LoneReturn(text, Slice(text, node.start + 1, node.end - 1), node.end - 1)
    else EndsAtReturn(text, matches[0].value, path[1..])
  }

  /** How the edited text compares with what the same edit would make of it. */
  ghost predicate Leaves(pre: Text, tree: Tree, post: Text, style: Style, path: seq<Text>, value: Json, keep: bool, after: Tree, s: Spot) {
    var text, next := pre + Show(tree) + post, pre + Show(after) + post;
    && SpotOf(pre, after, post, path) == Some(s)
    && (keep || Rendered(s, value, style))
    && if EndsAtReturn(text, NodeOf(tree, |pre|), path) then !s.inline && EolOf(next) != style.eol
       else keep || s.inline || !IsNested(value) || EolOf(next) == style.eol
  }

  lemma LeavesFirst(pre: Text, head: Text, post: Text, style: Style, path: seq<Text>, value: Json, keep: bool, after: Tree)
    returns (s: Spot)
    requires IsGap(head) && IsStyle(style) && path != []
    requires var text := pre + Show(Branch(true, head, End)) + post;
      && style.eol == EolOf(text)
      && after == FirstInserted(text, style, |pre|, head, path[0], Wrapped(path[1..], value))
    ensures Leaves(pre, Branch(true, head, End), post, style, path, value, keep, after, s)
    ensures UnitKept(LineIndent(pre + Show(Branch(true, head, End)) + post, |pre|), style.unit, Branch(true, head, End), after)
  {
    hide Show, IsGap, Slice, NodeOf, LineIndent, Wrapped, FirstInserted, EolOf, LoneReturn, IsStyle, Rendered, UnitKept, Matching, SpotOf, IsNested;
    var tree := Branch(true, head, End);
    var text, node := pre + Show(tree) + post, NodeOf(tree, |pre|);
    s := FirstSpot(pre, head, post, style, path, value);
    FirstEnding(pre, head, post, style, path[0], Wrapped(path[1..], value));
    FirstUnit(pre, head, post, style, path[0], Wrapped(path[1..], value));
    MatchingOf(tree, |pre|, path[0]);
    EmptyShown(pre, head, post);
    SliceAt(pre + [LBRACE], head, [RBRACE] + post);
    EmptyNode(pre, head);
  }

  lemma EmptyNode(pre: Text, head: Text)
    ensures var node := NodeOf(Branch(true, head, End), |pre|);
      node.members == Some([]) && node.start == |pre| && node.end == |pre| + 2 + |head|
  {
    EmptyShown(pre, head, []);
  }

  lemma LeavesLast(pre: Text, head: Text, es: Elems, post: Text, style: Style, path: seq<Text>, value: Json, keep: bool, after: Tree)
    returns (s: Spot)
    requires es.More? && Formed(Branch(true, head, es)) && IsStyle(style) && path != [] && Times(es, path[0]) == 0
    requires Clear(pre + Show(Branch(true, head, es)) + post, NodeOf(Branch(true, head, es), |pre|))
    requires var text, node := pre + Show(Branch(true, head, es)) + post, NodeOf(Branch(true, head, es), |pre|);
      && style.eol == EolOf(text) && CutOf(text, node) <= |LastTrivia(LastElem(es).tail)|
      && after == LastInserted(text, style, node, head, es, path[0], Wrapped(path[1..], value))
    ensures Leaves(pre, Branch(true, head, es), post, style, path, value, keep, after, s)
    ensures UnitKept(LineIndent(pre + Show(Branch(true, head, es)) + post, |pre|), style.unit, Branch(true, head, es), after)
  {
    hide Show, IsGap, Slice, NodeOf, LineIndent, Wrapped, LastInserted, EolOf, LoneReturn, IsStyle, Rendered, UnitKept, Matching, SpotOf, IsNested, Formed, CutOf;
    s := LastSpot(pre, head, es, post, style, path, value);
    LastEnding(pre, head, es, post, style, path[0], Wrapped(path[1..], value));
    LastUnit(pre, head, es, post, style, path[0], Wrapped(path[1..], value));
    MatchingOf(Branch(true, head, es), |pre|, path[0]);
  }

  lemma LeavesReplaced(pre: Text, head: Text, es: Elems, post: Text, style: Style, path: seq<Text>, value: Json, after: Tree)
    returns (s: Spot)
    requires Formed(Branch(true, head, es)) && IsStyle(style) && |path| == 1 && Times(es, path[0]) == 1
    requires var tree, i := Branch(true, head, es), IndexOf(es, path[0]);
      var text := pre + Show(tree) + post;
      && style.eol == EolOf(text) && i < Size(es)
      && after == Branch(true, head, WithValue(es, i,
           RenderedTree(value, style, LineIndent(text, KeyStart(pre, tree, i)), IsInline(text, NodeOf(tree, |pre|)))))
    ensures Leaves(pre, Branch(true, head, es), post, style, path, value, false, after, s)
    ensures UnitKept(LineIndent(pre + Show(Branch(true, head, es)) + post, |pre|), style.unit, Branch(true, head, es), after)
  {
    hide Show, NodeOf, LineIndent, EolOf, LoneReturn, IsStyle, Rendered, SpotOf, IsNested, Formed, RenderedTree, KeyStart, IsInline, IndexOf, WithValue, BeforeValue, AfterValue, Matching, Render, IsGap, FormedElems, UnitFrom;
    var tree, i := Branch(true, head, es), IndexOf(es, path[0]);
    var text := pre + Show(tree) + post;
    var indent, inline := LineIndent(text, KeyStart(pre, tree, i)), IsInline(text, NodeOf(tree, |pre|));
    var written := RenderedTree(value, style, indent, inline);
    s := ReplacedSpot(pre, head, es, post, style, path[0], value);
    assert path == [path[0]];
    NotAtReturn(tree, pre, text, path);
    UnitWithValue(head, es, i, written);
    BranchFormed(head, es);
    ElemAtFormed(true, es, i);
    ValueInPlace(pre, head, es, i, post);
    ValueReplaced(pre, head, es, i, written, post);
    var old_ := ElemAt(es, i).value;
    FormedValue(ElemAt(es, i));
    TreeIsSolid(old_);
    ReplacedStays(pre, head, es, i, post, style, value, indent, inline);
  }

  lemma FormedValue(elem: Elem)
    requires FormedElem(true, elem)
    ensures Formed(elem.value)
  {
  }

  lemma NotAtReturn(tree: Tree, pre: Text, text: Text, path: seq<Text>)
    requires tree.Branch? && tree.braces && |path| == 1 && Times(tree.elems, path[0]) == 1
    ensures !EndsAtReturn(text, NodeOf(tree, |pre|), path)
  {
    hide NodeOf, KeyOf, Matching;
    MatchingOf(tree, |pre|, path[0]);
  }

  /** What the ending of an edited text is where a value was rendered with the indentation its line had. */
  lemma ReplacedStays(pre: Text, head: Text, es: Elems, i: nat, post: Text, style: Style, value: Json, indent: Text, inline: bool)
    requires i < Size(es) && Solid(Show(ElemAt(es, i).value)) && IsStyle(style)
    requires var tree := Branch(true, head, es);
      var text := pre + Show(tree) + post;
      style.eol == EolOf(text) && indent == LineIndent(text, KeyStart(pre, tree, i))
    ensures var written := RenderedTree(value, style, indent, inline);
      inline || !IsNested(value)
      || EolOf(pre + Show(Branch(true, head, WithValue(es, i, written))) + post) == style.eol
  {
    hide Show, LineIndent, EolOf, IsStyle, Solid, IsNested, RenderedTree, KeyStart, WithValue, BeforeValue, AfterValue, Render, ElemAt;
    var text := pre + Show(Branch(true, head, es)) + post;
    var written := RenderedTree(value, style, indent, inline);
    LineIndentIsIndent(text, KeyStart(pre, Branch(true, head, es), i));
    RenderedIsTree(value, style, indent, inline);
    ValueInPlace(pre, head, es, i, post);
    ValueReplaced(pre, head, es, i, written, post);
    ReplacedEnding(BeforeValue(pre, head, es, i), Show(ElemAt(es, i).value), AfterValue(es, i, post), style, indent, inline, value);
  }

  lemma LeavesKept(pre: Text, tree: Tree, post: Text, style: Style, path: seq<Text>, value: Json) returns (s: Spot)
    requires tree.Branch? && tree.braces && |path| == 1 && Times(tree.elems, path[0]) == 1
    ensures Leaves(pre, tree, post, style, path, value, true, tree, s)
  {
    hide Show, NodeOf, LineIndent, EolOf, BeforeValue, AfterValue, EndsAtReturn, BeforeKey;
    NotAtReturn(tree, pre, pre + Show(tree) + post, path);
    s := SpotOf(pre, tree, post, path).value;
  }

  lemma LeavesInside(pre: Text, tree: Tree, post: Text, style: Style, path: seq<Text>, value: Json, keep: bool, i: nat, changed: Tree, s: Spot)
    requires tree.Branch? && tree.braces && |path| > 1 && Times(tree.elems, path[0]) == 1
    requires i == IndexOf(tree.elems, path[0]) && i < Size(tree.elems)
    requires Leaves(BeforeValue(pre, tree.head, tree.elems, i), ElemAt(tree.elems, i).value, AfterValue(tree.elems, i, post),
      style, path[1..], value, keep, changed, s)
    ensures Leaves(pre, tree, post, style, path, value, keep, Branch(true, tree.head, WithValue(tree.elems, i, changed)), s)
  {
    hide Show, NodeOf, KeyOf, EolOf, BeforeValue, AfterValue, IndexOf, Matching, Rendered, IsNested, SpotOf, WithValue, LoneReturn, OneLine, BeforeKey, LineIndent, ElemAt, Times;
    var es := tree.elems;
    FoundAt(tree, pre, path[0]);
    ValueInPlace(pre, tree.head, es, i, post);
    ValueReplaced(pre, tree.head, es, i, changed, post);
    SpotWithValue(pre, tree.head, es, post, path, changed);
  }

  /** An edit that lands leaves the member where the same edit finds it, rendered by the style it went by. */
  lemma {:induction false} UpsertLeaves(pre: Text, tree: Tree, post: Text, style: Style, path: seq<Text>, value: Json, keep: bool)
    returns (after: Tree, s: Spot)
    requires Formed(tree) && tree.Branch? && tree.braces && IsStyle(style) && style.eol == EolOf(pre + Show(tree) + post)
    requires UpsertIn(pre + Show(tree) + post, style, NodeOf(tree, |pre|), path, value, keep).Some?
    requires ClearAlong(pre + Show(tree) + post, NodeOf(tree, |pre|), path)
    ensures Edits(pre, tree, post, style, path, value, keep, after)
    ensures Leaves(pre, tree, post, style, path, value, keep, after, s)
    ensures UnitKept(LineIndent(pre + Show(tree) + post, |pre|), style.unit, tree, after)
    decreases |path|
  {
    hide Show, Formed, NodeOf, IsStyle, Edits, Leaves, Clear, IndexOf, KeyOf, EolOf, LineIndent, UnitFrom;
    var es, key := tree.elems, path[0];
    MatchingOf(tree, |pre|, key);
    if Times(es, key) == 0 {
      if es.End? {
        BranchFormed(tree.head, es);
        after := AddsFirst(pre, tree.head, post, style, path, value, keep);
        s := LeavesFirst(pre, tree.head, post, style, path, value, keep, after);
      } else {
        AnchorIs(pre, tree.head, es);
        after := AddsLast(pre, tree.head, es, post, style, path, value, keep);
        s := LeavesLast(pre, tree.head, es, post, style, path, value, keep, after);
      }
    } else if |path| == 1 {
      if keep {
        after := tree;
        Keeps(pre, tree, post, style, path, value);
        s := LeavesKept(pre, tree, post, style, path, value);
      } else {
        after := Replaces(pre, tree.head, es, post, style, path, value);
        s := LeavesReplaced(pre, tree.head, es, post, style, path, value, after);
      }
    } else {
      after, s := LeavesDeeper(pre, tree, post, style, path, value, keep);
    }
  }

  lemma {:induction false} LeavesDeeper(pre: Text, tree: Tree, post: Text, style: Style, path: seq<Text>, value: Json, keep: bool)
    returns (after: Tree, s: Spot)
    requires Formed(tree) && tree.Branch? && tree.braces && IsStyle(style) && style.eol == EolOf(pre + Show(tree) + post)
    requires UpsertIn(pre + Show(tree) + post, style, NodeOf(tree, |pre|), path, value, keep).Some?
    requires ClearAlong(pre + Show(tree) + post, NodeOf(tree, |pre|), path)
    requires |path| > 1 && Times(tree.elems, path[0]) > 0
    ensures Edits(pre, tree, post, style, path, value, keep, after)
    ensures Leaves(pre, tree, post, style, path, value, keep, after, s)
    ensures UnitKept(LineIndent(pre + Show(tree) + post, |pre|), style.unit, tree, after)
    decreases |path|, 0
  {
    hide Show, Formed, NodeOf, IsStyle, Edits, Leaves, Clear, IndexOf, KeyOf, EolOf, LineIndent, UnitFrom, WithValue;
    var es, key := tree.elems, path[0];
    MatchingOf(tree, |pre|, key);
    FoundAt(tree, pre, key);
    var i := IndexOf(es, key);
    var inner := ElemAt(es, i).value;
    ValueInPlace(pre, tree.head, es, i, post);
    BranchFormed(tree.head, es);
    InnerFormed(es, i, |BeforeValue(pre, tree.head, es, i)|);
    var changed;
    changed, s := UpsertLeaves(
      BeforeValue(pre, tree.head, es, i), inner, AfterValue(es, i, post), style, path[1..], value, keep);
    after := Branch(true, tree.head, WithValue(es, i, changed));
    EditsInside(pre, tree, post, style, path, value, keep, i, changed);
    LeavesInside(pre, tree, post, style, path, value, keep, i, changed, s);
    UnitWithValue(tree.head, es, i, changed);
  }

  // ----- The same edit again -----

  /** The guard of the one failure, on a whole file. */
  predicate ReturnsAlone(text: Text, path: seq<Text>) {
    match ParseSpec(text) case None => false case Some(root) => EndsAtReturn(text, root, path)
  }

  lemma MiddleSame(before: Text, a: Text, b: Text, after: Text)
    ensures before + a + after == before + b + after <==> a == b
  {
    if before + a + after == before + b + after {
      assert a == (before + a + after)[|before|..|before| + |a|];
      assert b == (before + b + after)[|before|..|before| + |b|];
    }
  }

  /** What the second edit makes of the member the first one left. */
  lemma AgainAtSpot(pre: Text, after: Tree, post: Text, style: Style, again: Style, path: seq<Text>, value: Json, keep: bool, s: Spot)
    requires SpotOf(pre, after, post, path) == Some(s) && (keep || Rendered(s, value, style))
    requires IsStyle(style) && IsStyle(again) && again.unit == style.unit
    ensures NodeOf(after, |pre|).members.Some?
    ensures var next := pre + Show(after) + post;
      UpsertIn(next, again, NodeOf(after, |pre|), path, value, keep) == Some(next)
      <==> keep || s.inline || !IsNested(value) || again.eol == style.eol
  {
    hide Show, NodeOf, SpotOf, IsStyle, Render, IsNested;
    UpsertAtSpot(pre, after, post, again, path, value, keep);
    RenderedAlike(value, style, again, s.indent, s.inline);
    MiddleSame(s.before, Render(value, again, s.indent, s.inline), Show(s.value), s.after);
  }

  /**
   * Made again, an edit that landed returns the text it was given, exactly unless it rewrites a
   * value of several lines that it had put, with a line feed, after a lone carriage return.
   */
  lemma TwiceIsOnce(text: Text, path: seq<Text>, value: Json, keep: bool)
    requires Upsert(text, path, value, keep).Some? && Lands(text, path)
    ensures var next := Upsert(text, path, value, keep).value;
      Upsert(next, path, value, keep) == Some(next) <==> keep || !IsNested(value) || !ReturnsAlone(text, path)
  {
    hide Show, Formed, ReadDocument, UpsertIn, StyleOf, IsStyle, ClearAlong, IsOpening, IsEnding, LineIndent, UnitFrom, EolOf, SpotOf, IsNested, Rendered, EndsAtReturn, OnlyNamed, FieldsOf, Merged, Meaning, UnitOf, UnitKept;
    var d := ReadDocument(text).value;
    DocumentIs(text, d);
    var p, e := text[..d.start], text[d.start + |Show(d.tree)|..];
    var root := NodeOf(d.tree, |p|);
    var style := StyleOf(text, root);
    StyleIsStyle(text, root);
    RootIsObject(d.tree, |p|);
    StyleIs(p, d.tree, e);
    var after, s := UpsertLeaves(p, d.tree, e, style, path, value, keep);
    var next := p + Show(after) + e;
    DocumentReads(p, after, e);
    ObjectNode(after, |p|);
    var again := StyleOf(next, NodeOf(after, |p|));
    StyleIsStyle(next, NodeOf(after, |p|));
    StyleIs(p, after, e);
    Assoc(p, Show(d.tree), e);
    LinePrefix(p, Show(d.tree) + e, |p|);
    KeptUnitIs(LineIndent(p, |p|), d.tree, after);
    AgainAtSpot(p, after, e, style, again, path, value, keep, s);
  }

  lemma RootIsObject(tree: Tree, at: nat)
    ensures NodeOf(tree, at).members.Some? ==> tree.Branch? && tree.braces
  {
  }

  // ----- Such a file -----

  /** `{/**/` with a carriage return before the closing brace. */
  const COMMENT: Text := [SLASH, STAR, STAR, SLASH, CR]
  const FILE: Tree := Branch(true, COMMENT, End)
  const TEXT: Text := [LBRACE, SLASH, STAR, STAR, SLASH, CR, RBRACE]
  const KEY: Text := [97]

  lemma FileIs()
    ensures Show(FILE) == TEXT && Formed(FILE) && ReadDocument(TEXT) == Some(Document(0, FILE))
    ensures Slice(TEXT, 1, 6) == COMMENT
  {
    hide ReadDocument, Skip;
    CommentIs();
    DocumentReads([], FILE, []);
    assert [] + Show(FILE) + [] == TEXT;
  }

  lemma CommentIs()
    ensures IsGap(COMMENT) && IsOpening([]) && IsEnding([])
  {
    assert CloseFrom(COMMENT, 2) == Some(2);
    assert COMMENT[4..] == [CR];
  }

  lemma LineIs()
    ensures !HasCrLf(TEXT) && !StartsLine(TEXT, 6) && !IsSpaces(COMMENT)
  {
    LineStartBack(TEXT, 6, 0);
    assert Slice(TEXT, 0, 6)[0] == LBRACE;
    assert COMMENT[0] == SLASH;
  }

  /** A file that a second edit changes: the first one makes its line ending a pair. */
  lemma SecondDiffers()
    ensures var value := Json.Arr([Json.Null]); var first := Upsert(TEXT, [KEY], value, false);
      first.Some? && Upsert(first.value, [KEY], value, false) != first
  {
    hide ReadDocument, Show, Formed, HasCrLf, StartsLine, IsSpaces, Slice, Insert;
    FileIs();
    LineIs();
    EmptyNode([], COMMENT);
    NoMatch();
    TwiceIsOnce(TEXT, [KEY], Json.Arr([Json.Null]), false);
  }

  lemma NoMatch()
    ensures Matching([], KEY) == []
  {
  }
}
