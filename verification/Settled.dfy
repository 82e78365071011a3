/** Where an edit finds a member, and how the member stands there after an edit. */
module Settled {
  import opened Units
  import Strings
  import opened Json
  import opened Values
  import opened Syntax
  import opened Nodes
  import opened Editor
  import opened TreeEdits
  import opened Layout
  import opened Inserts
  import opened Commutes
  import opened Lines
  import Locality

  // ----- Renderings -----

  lemma {:induction false} ReplaceKeepsLine(s: Text, eol: Text)
    requires LF in s && LF in eol
    ensures LF in ReplaceLines(s, eol)
  {
    if s[0] != LF {
      ReplaceKeepsLine(s[1..], eol);
    }
  }

  /** Whether JSON.stringify writes the value over several lines, when it is given an indentation. */
  predicate IsNested(j: Json) {
    (j.Arr? && j.items != []) || (j.Obj? && j.members != [])
  }

  lemma NestedHasLine(j: Json, gap: Text)
    requires IsNested(j)
    ensures LF in Serialize(j, gap, [LF])
  {
    hide SerializeItems, SerializeFields;
    assert Serialize(j, gap, [LF])[1] == LF;
  }

  lemma SingleLine(j: Json, gap: Text)
    requires !IsNested(j)
    ensures LF !in Serialize(j, gap, [LF])
    ensures Serialize(j, gap, [LF]) == Serialize(j, [], [])
  {
    hide SerializeItems, SerializeFields;
    if !j.Arr? && !j.Obj? {
      AtomHasNoLine(j, gap, [LF]);
    }
  }

  lemma {:induction false} CompactHasNoLine(j: Json)
    ensures LF !in Compact(j)
  {
    hide Serialize;
    ReplaceSerialized(j, [], [], []);
    assert ReplaceLines([], []) == [];
    ReplaceLength(Compact(j), [], [SPACE, SPACE]);
    ReplaceSerialized(j, [], [], [SPACE, SPACE]);
    assert ReplaceLines([], [SPACE, SPACE]) == [];
  }

  /** A longer line ending makes a text of several lines longer. */
  lemma {:induction false} ReplaceLength(s: Text, eol: Text, longer: Text)
    requires |eol| < |longer|
    ensures |ReplaceLines(s, eol)| <= |ReplaceLines(s, longer)|
    ensures LF in s ==> |ReplaceLines(s, eol)| < |ReplaceLines(s, longer)|
  {
    if s != [] {
      ReplaceLength(s[1..], eol, longer);
    }
  }

  /** Two line endings render a value alike exactly when it is rendered on one line. */
  lemma RenderedAlike(value: Json, style: Style, again: Style, indent: Text, inline: bool)
    requires IsStyle(style) && IsStyle(again) && again.unit == style.unit
    ensures Render(value, again, indent, inline) == Render(value, style, indent, inline)
      <==> inline || !IsNested(value) || again.eol == style.eol
  {
    hide Serialize, ReplaceLines, IsNested;
    var pretty := Pretty(value, style.unit);
    if !IsNested(value) {
      SingleLine(value, Gap(style.unit));
      ReplaceNothing(pretty, style.eol + indent);
      ReplaceNothing(pretty, again.eol + indent);
    } else {
      NestedHasLine(value, Gap(style.unit));
      if |style.eol| < |again.eol| {
        ReplaceLength(pretty, style.eol + indent, again.eol + indent);
      } else if |again.eol| < |style.eol| {
        ReplaceLength(pretty, again.eol + indent, style.eol + indent);
      }
    }
  }

  /** What is rendered as over several lines, but takes one, is rendered as on one line. */
  lemma OneLineRender(value: Json, style: Style, indent: Text)
    requires IsStyle(style) && LF !in Render(value, style, indent, false)
    ensures Render(value, style, indent, false) == Render(value, style, indent, true)
  {
    hide Serialize;
    var pretty := Pretty(value, style.unit);
    if LF in pretty {
      ReplaceKeepsLine(pretty, style.eol + indent);
    } else {
      ReplaceNothing(pretty, style.eol + indent);
      if IsNested(value) {
        NestedHasLine(value, Gap(style.unit));
      }
      SingleLine(value, Gap(style.unit));
    }
  }

  lemma CompactIsInline(value: Json, style: Style, indent: Text)
    ensures LF !in Render(value, style, indent, true)
  {
    CompactHasNoLine(value);
  }

  // ----- The place of a member -----

  /** A member's value between the rest of the text, and what an edit of it goes by. */
  datatype Spot = Spot(before: Text, value: Tree, after: Text, indent: Text, inline: bool)

  /** The text in front of the key of member `i`. */
  function BeforeKey(pre: Text, head: Text, es: Elems, i: nat): Text
    requires i <= Size(es)
  {
    pre + [LBRACE] + head + Before(es, i)
  }

  predicate OneLine(tree: Tree) {
    LF !in Show(tree)
  }

  /** The place of the one member `path` names. */
  function SpotOf(pre: Text, tree: Tree, post: Text, path: seq<Text>): Option<Spot>
    decreases |path|
  {
    if path == [] || !tree.Branch? || !tree.braces || Times(tree.elems, path[0]) != 1 then None else
      IndexIs(tree.elems, path[0]);
      var es, i := tree.elems, IndexOf(tree.elems, path[0]);
      var before, after, value := BeforeValue(pre, tree.head, es, i), AfterValue(es, i, post), ElemAt(es, i).value;
      if |path| > 1 then SpotOf(before, value, after, path[1..])
      else
        var q := BeforeKey(pre, tree.head, es, i);
        Some(Spot(before, value, after, LineIndent(q, |q|), OneLine(tree)))
  }

  /** The line of a key depends on what is in front of it only. */
  lemma KeyLine(pre: Text, head: Text, es: Elems, i: nat, post: Text)
    requires i < Size(es)
    ensures var tree, q := Branch(true, head, es), BeforeKey(pre, head, es, i);
      LineIndent(pre + Show(tree) + post, KeyStart(pre, tree, i)) == LineIndent(q, |q|)
  {
    hide Show, ShowLead, LineIndent, AfterValue, Before, StartsLine;
    ValueInPlace(pre, head, es, i, post);
    var q, lead, value := BeforeKey(pre, head, es, i), ShowLead(ElemAt(es, i).lead), Show(ElemAt(es, i).value);
    Assoc(q, lead, value);
    Assoc(q, lead + value, AfterValue(es, i, post));
    LinePrefix(q, lead + value + AfterValue(es, i, post), |q|);
  }

  lemma InlineIs(pre: Text, tree: Tree, post: Text)
    ensures IsInline(pre + Show(tree) + post, NodeOf(tree, |pre|)) <==> LF !in Show(tree)
  {
    hide Show, Slice;
    SliceAt(pre, Show(tree), post);
  }

  /** An edit of a member in its place replaces the value there, or leaves the text alone. */
  lemma {:induction false} UpsertAtSpot(pre: Text, tree: Tree, post: Text, style: Style, path: seq<Text>, value: Json, keep: bool)
    requires SpotOf(pre, tree, post, path).Some?
    ensures NodeOf(tree, |pre|).members.Some?
    ensures var s, text := SpotOf(pre, tree, post, path).value, pre + Show(tree) + post;
      && text == s.before + Show(s.value) + s.after
      && UpsertIn(text, style, NodeOf(tree, |pre|), path, value, keep)
           == Some(if keep then text else s.before + Render(value, style, s.indent, s.inline) + s.after)
    decreases |path|
  {
    hide Show, NodeOf, KeyOf, Render, LineIndent, IsInline, BeforeValue, AfterValue, Splice, IndexOf, Matching, KeyStart, BeforeKey;
    FoundAt(tree, pre, path[0]);
    var es, i := tree.elems, IndexOf(tree.elems, path[0]);
    var rendered := ElemAt(es, i).value;
    ValueInPlace(pre, tree.head, es, i, post);
    var before, after := BeforeValue(pre, tree.head, es, i), AfterValue(es, i, post);
    if |path| == 1 {
      KeyLine(pre, tree.head, es, i, post);
      InlineIs(pre, tree, post);
      var s := SpotOf(pre, tree, post, path).value;
      SpliceAt(before, Show(rendered), after, Render(value, style, s.indent, s.inline));
    } else {
      UpsertAtSpot(before, rendered, after, style, path[1..], value, keep);
    }
  }

  // ----- After a replacement -----

  lemma {:induction false} WithValueTimes(es: Elems, i: nat, value: Tree, key: Text)
    requires i < Size(es)
    ensures Times(WithValue(es, i, value), key) == Times(es, key)
    ensures Times(es, key) > 0 ==> IndexOf(WithValue(es, i, value), key) == IndexOf(es, key)
  {
    hide KeyOf;
    if i > 0 {
      WithValueTimes(es.rest, i - 1, value, key);
    }
  }

  /** The place of a value that was replaced, or edited in turn. */
  lemma SpotWithValue(pre: Text, head: Text, es: Elems, post: Text, path: seq<Text>, value: Tree)
    requires path != [] && Times(es, path[0]) == 1 && IndexOf(es, path[0]) < Size(es)
    ensures var i := IndexOf(es, path[0]);
      var after := Branch(true, head, WithValue(es, i, value));
      var b, a, q := BeforeValue(pre, head, es, i), AfterValue(es, i, post), BeforeKey(pre, head, es, i);
      SpotOf(pre, after, post, path) ==
        if |path| > 1 then SpotOf(b, value, a, path[1..])
        else Some(Spot(b, value, a, LineIndent(q, |q|), OneLine(after)))
  {
    hide Show, KeyOf, LineIndent, IndexOf, WithValue, ElemAt, Times, Before, After, ShowLead, ShowTail;
    var i := IndexOf(es, path[0]);
    WithValueTimes(es, i, value, path[0]);
    WithValueText(true, es, i, value);
  }

  /** The value found there is the one an edit renders there. */
  predicate Rendered(s: Spot, value: Json, style: Style) {
    Show(s.value) == Render(value, style, s.indent, s.inline)
  }

  /** A replaced value is found as it would be rendered. */
  lemma ReplacedSpot(pre: Text, head: Text, es: Elems, post: Text, style: Style, key: Text, value: Json)
    returns (s: Spot)
    requires Times(es, key) == 1 && IndexOf(es, key) < Size(es) && IsStyle(style)
    ensures var tree, i := Branch(true, head, es), IndexOf(es, key);
      var text := pre + Show(tree) + post;
      var written := RenderedTree(value, style, LineIndent(text, KeyStart(pre, tree, i)), IsInline(text, NodeOf(tree, |pre|)));
      && SpotOf(pre, Branch(true, head, WithValue(es, i, written)), post, [key]) == Some(s) && Rendered(s, value, style)
      && (IsInline(text, NodeOf(tree, |pre|)) ==> s.inline)
  {
    hide Show, NodeOf, Render, LineIndent, IsInline, IndexOf, KeyStart, WithValue, RenderedTree, ElemAt, Times, BeforeValue, AfterValue, BeforeKey;
    var tree, i := Branch(true, head, es), IndexOf(es, key);
    var text := pre + Show(tree) + post;
    var indent, inline := LineIndent(text, KeyStart(pre, tree, i)), IsInline(text, NodeOf(tree, |pre|));
    var written := RenderedTree(value, style, indent, inline);
    var after := Branch(true, head, WithValue(es, i, written));
    var q := BeforeKey(pre, head, es, i);
    KeyLine(pre, head, es, i, post);
    LineIndentIsIndent(text, KeyStart(pre, tree, i));
    RenderedIsTree(value, style, indent, inline);
    SpotWithValue(pre, head, es, post, [key], written);
    s := Spot(BeforeValue(pre, head, es, i), written, AfterValue(es, i, post), LineIndent(q, |q|), OneLine(after));
    InlineIs(pre, tree, post);
    LineSplit(tree, i, written);
    if inline {
      CompactIsInline(value, style, indent);
    } else if LF !in Show(written) {
      OneLineRender(value, style, indent);
    }
  }

  /** Where the line feeds of an object's text are, before and after a replacement. */
  lemma LineSplit(tree: Tree, i: nat, value: Tree)
    requires tree.Branch? && i < Size(tree.elems)
    ensures var after := tree.(elems := WithValue(tree.elems, i, value));
      && (LF !in Show(tree) && LF !in Show(value) ==> LF !in Show(after))
      && (LF !in Show(after) ==> LF !in Show(value))
  {
    hide Show, WithValue, ElemAt, Size;
    var b, a := Locality.BeforeElemValue(tree, i), Locality.AfterElemValue(tree, i);
    Locality.BranchSplit(tree, i);
    Locality.WithValueSplit(tree, i, value);
    InThree(b, Show(value), a);
    InThree(b, Show(ElemAt(tree.elems, i).value), a);
  }

  lemma InThree(a: Text, b: Text, c: Text)
    ensures LF in a + b + c <==> LF in a || LF in b || LF in c
  {
  }

  // ----- After an insertion -----

  /** Indentation after a line break is all of its line. */
  lemma IndentLine(x: Text, indent: Text)
    requires x != [] && x[|x| - 1] == LF && IsIndent(indent)
    ensures LineIndent(x + indent, |x + indent|) == indent && GapStarts(x + indent)
  {
    hide IndentLen;
    LineStartOf(x, indent, |indent|);
    assert Slice(x + indent, |x|, |x + indent|) == indent;
    AllIndent(indent, 0);
  }

  lemma {:induction false} LineStartOf(x: Text, indent: Text, k: nat)
    requires x != [] && x[|x| - 1] == LF && IsIndent(indent) && k <= |indent|
    ensures LineStart(x + indent, |x| + k) == |x|
  {
    if k > 0 {
      assert (x + indent)[|x| + k - 1] == indent[k - 1];
      LineStartOf(x, indent, k - 1);
    }
  }

  lemma {:induction false} AllIndent(s: Text, at: nat)
    requires IsIndent(s) && at <= |s|
    ensures IndentLen(s, at) == |s| - at
    decreases |s| - at
  {
    if at < |s| {
      AllIndent(s, at + 1);
    }
  }

  lemma WrappedIs(path: seq<Text>, value: Json)
    requires path != []
    ensures Wrapped(path, value) == Json.Obj([Field(path[0], Wrapped(path[1..], value))])
  {
  }

  lemma WrappedPrinted(key: Text, inner: Json, gap: Text, line: Text)
    ensures Printed(Json.Obj([Field(key, inner)]), gap, line) == Branch(true, line + gap,
      More(Elem(Keyed(Strings.Quote(key), [], Pad(gap)), Printed(inner, gap, line + gap), Plain(line)), End))
  {
    var members := [Field(key, inner)];
    assert members[1..] == [];
    assert PrintedFields(members[1..], gap, line) == End;
  }

  /** The one member of a rendered object, in its place. */
  lemma {:induction false} NestedSpot(pre: Text, post: Text, style: Style, indent: Text, inline: bool, path: seq<Text>, value: Json)
    returns (s: Spot)
    requires IsStyle(style) && IsIndent(indent) && path != []
    ensures SpotOf(pre, RenderedTree(Wrapped(path, value), style, indent, inline), post, path) == Some(s)
    ensures Rendered(s, value, style) && s.inline == inline
    decreases |path|
  {
    hide Show, Render, Printed, LineIndent, KeyOf, Wrapped, IsIndent, Serialize;
    var gap, line := if inline then [] else Gap(style.unit), if inline then [] else style.eol + indent;
    var rest := Wrapped(path[1..], value);
    WrappedIs(path, value);
    WrappedPrinted(path[0], rest, gap, line);
    var inner := Printed(rest, gap, line + gap);
    var tail := Plain(line);
    var es := More(Elem(Keyed(Strings.Quote(path[0]), [], Pad(gap)), inner, tail), End);
    var tree := Branch(true, line + gap, es);
    var deeper := indent + gap;
    DeeperIsIndent(indent, style, inline);
    Assoc(style.eol, indent, gap);
    assert inner == RenderedTree(rest, style, deeper, inline);
    KeyIsPrinted(path[0], Pad(gap));
    OneTimes(es, path[0]);
    var b, a := BeforeValue(pre, line + gap, es, 0), AfterValue(es, 0, post);
    if |path| > 1 {
      s := NestedSpot(b, a, style, deeper, inline, path[1..], value);
    } else {
      assert rest == value by { WrappedNothing(path[1..], value); }
      RenderedIsTree(value, style, deeper, inline);
      var q := BeforeKey(pre, line + gap, es, 0);
      s := Spot(b, inner, a, LineIndent(q, |q|), OneLine(tree));
      RenderedHasLine(Wrapped(path, value), style, indent, inline);
      if inline {
        InlineAlike(value, style, deeper, s.indent);
      } else {
        OwnLine(pre, style.eol, deeper, line + gap, es);
      }
    }
  }

  lemma InlineAlike(value: Json, style: Style, indent: Text, other: Text)
    ensures Render(value, style, indent, true) == Render(value, style, other, true)
  {
  }

  lemma WrappedNothing(path: seq<Text>, value: Json)
    requires path == []
    ensures Wrapped(path, value) == value
  {
  }

  lemma DeeperIsIndent(indent: Text, style: Style, inline: bool)
    requires IsStyle(style) && IsIndent(indent)
    ensures IsIndent(indent + if inline then [] else Gap(style.unit))
  {
  }

  lemma OneTimes(es: Elems, key: Text)
    requires es.More? && es.rest.End? && KeyOf(es.elem.lead) == key
    ensures Times(es, key) == 1 && IndexOf(es, key) == 0 && Size(es) == 1 && ElemAt(es, 0) == es.elem
  {
  }

  /** A member is written over several lines exactly when it is not written inline. */
  lemma RenderedHasLine(data: Json, style: Style, indent: Text, inline: bool)
    requires IsStyle(style) && IsIndent(indent) && IsNested(data)
    ensures LF in Show(RenderedTree(data, style, indent, inline)) <==> !inline
  {
    hide Show, RenderedTree, Serialize;
    RenderedIsTree(data, style, indent, inline);
    if inline {
      CompactIsInline(data, style, indent);
    } else {
      NestedHasLine(data, Gap(style.unit));
      ReplaceKeepsLine(Pretty(data, style.unit), style.eol + indent);
    }
  }

  /** The first key of an object stands on a line of its own when a line break precedes its indentation. */
  lemma OwnLine(pre: Text, front: Text, indent: Text, head: Text, es: Elems)
    requires front != [] && front[|front| - 1] == LF && IsIndent(indent) && head == front + indent
    ensures var q := BeforeKey(pre, head, es, 0); LineIndent(q, |q|) == indent
  {
    hide LineIndent, IsIndent;
    var x := pre + [LBRACE] + front;
    Assoc(pre + [LBRACE], front, indent);
    assert BeforeKey(pre, head, es, 0) == x + indent;
    IndentLine(x, indent);
  }
}
