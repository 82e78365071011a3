/** Where a member stands after an edit inserted it. */
module Placed {
  import opened Units
  import opened Trivia
  import Strings
  import opened Json
  import opened Syntax
  import opened Nodes
  import opened Editor
  import opened TreeEdits
  import opened Layout
  import opened Inserts
  import opened Appends
  import opened Commutes
  import opened Settled

  /** An inserted member is found as it would be rendered. */
  lemma InsertedSpot(pre: Text, head: Text, es: Elems, post: Text, style: Style, indent: Text, inline: bool, path: seq<Text>, value: Json)
    returns (s: Spot)
    requires path != [] && Times(es, path[0]) == 1 && IndexOf(es, path[0]) < Size(es) && IsStyle(style) && IsIndent(indent)
    requires ElemAt(es, IndexOf(es, path[0])).value == RenderedTree(Wrapped(path[1..], value), style, indent, inline)
    requires inline == OneLine(Branch(true, head, es))
    requires !inline ==> var q := BeforeKey(pre, head, es, IndexOf(es, path[0])); LineIndent(q, |q|) == indent
    ensures SpotOf(pre, Branch(true, head, es), post, path) == Some(s) && Rendered(s, value, style) && s.inline == inline
  {
    hide Show, Render, RenderedTree, LineIndent, KeyOf, Wrapped, IsIndent, Times, IndexOf, ElemAt, OneLine, BeforeKey, BeforeValue, AfterValue;
    var i := IndexOf(es, path[0]);
    var b, a, inner := BeforeValue(pre, head, es, i), AfterValue(es, i, post), ElemAt(es, i).value;
    if |path| > 1 {
      s := NestedSpot(b, a, style, indent, inline, path[1..], value);
    } else {
      WrappedNothing(path[1..], value);
      RenderedIsTree(value, style, indent, inline);
      var q := BeforeKey(pre, head, es, i);
      s := Spot(b, inner, a, LineIndent(q, |q|), inline);
      if inline {
        InlineAlike(value, style, indent, s.indent);
      }
    }
  }

  lemma ShowHolds(head: Text, es: Elems)
    requires LF in head
    ensures !OneLine(Branch(true, head, es))
  {
    hide ShowElems;
  }

  // ----- A first member -----

  /** The trivia in front of a first member ends with a line break and the member's indentation. */
  lemma FirstSidesLine(a: Text, head: Text, z: Text, style: Style, at: nat) returns (x: Text)
    requires IsStyle(style) && IsGap(head) && |a| == at + 1 && a[at] == LBRACE
    ensures var text := a + head + z;
      FirstSides(text, style, at, head).head == x + (LineIndent(text, at) + style.unit) && x != [] && x[|x| - 1] == LF
  {
    hide LineIndent, IsGap, StartsLine, LineStart, IsSpaces;
    var text := a + head + z;
    var indent := LineIndent(text, at) + style.unit;
    if IsSpaces(head) {
      x := style.eol;
    } else if StartsLine(text, at + 1 + |head|) {
      BraceLine(a, head, z);
      var start := LineStart(text, at + 1 + |head|);
      LineStartIs(text, at + 1 + |head|);
      x := head[..start - (at + 1)];
      assert text[start - 1] == head[start - 1 - |a|];
    } else {
      x := head + style.eol;
      Assoc(head, style.eol, indent);
    }
  }

  lemma UnitIsIndent(text: Text, at: nat, style: Style)
    requires IsStyle(style)
    ensures IsIndent(LineIndent(text, at) + style.unit)
  {
    hide LineIndent;
    LineIndentIsIndent(text, at);
  }

  lemma FirstSpot(pre: Text, head: Text, post: Text, style: Style, path: seq<Text>, value: Json) returns (s: Spot)
    requires IsGap(head) && IsStyle(style) && path != []
    ensures var text := pre + Show(Branch(true, head, End)) + post;
      var after := FirstInserted(text, style, |pre|, head, path[0], Wrapped(path[1..], value));
      SpotOf(pre, after, post, path) == Some(s) && Rendered(s, value, style) && !s.inline
  {
    hide Show, IsGap, RenderedTree, LineIndent, KeyOf, Wrapped, IsIndent, OneLine, FirstSides, WrittenElem, IsStyle;
    var text := pre + Show(Branch(true, head, End)) + post;
    var data := Wrapped(path[1..], value);
    var indent := LineIndent(text, |pre|) + style.unit;
    var sides := FirstSides(text, style, |pre|, head);
    var elem := WrittenElem(path[0], RenderedFirst(text, style, |pre|, data), Plain(sides.tail));
    var es := More(elem, End);
    UnitIsIndent(text, |pre|, style);
    EmptyShown(pre, head, post);
    var x := FirstSidesLine(pre + [LBRACE], head, [RBRACE] + post, style, |pre|);
    WrittenKey(path[0], RenderedFirst(text, style, |pre|, data), Plain(sides.tail));
    OneTimes(es, path[0]);
    OwnLine(pre, x, indent, sides.head, es);
    assert LF in x;
    ShowHolds(sides.head, es);
    s := InsertedSpot(pre, sides.head, es, post, style, indent, false, path, value);
  }

  lemma WrittenKey(key: Text, value: Tree, tail: Tail)
    ensures var e := WrittenElem(key, value, tail); KeyOf(e.lead) == key && e.value == value && e.tail == tail
  {
    hide Strings.Quote, Strings.IsString, Strings.Unquote;
    KeyIsPrinted(key, [SPACE]);
  }

  // ----- A last member -----

  lemma {:induction false} ExtendedTimes(es: Elems, tail: Tail, added: Elem, key: Text)
    requires es.More? && Times(es, key) == 0 && KeyOf(added.lead) == key
    ensures var after := Extended(es, tail, added);
      Times(after, key) == 1 && IndexOf(after, key) == Size(es) && Size(after) == Size(es) + 1 && ElemAt(after, Size(es)) == added
  {
    hide KeyOf;
    if es.rest.More? {
      ExtendedTimes(es.rest, tail, added, key);
    } else {
      OneTimes(More(added, End), key);
    }
  }

  lemma {:induction false} BeforeAdded(es: Elems, tail: Tail, added: Elem)
    requires es.More?
    ensures Size(Extended(es, tail, added)) == Size(es) + 1
    ensures Before(Extended(es, tail, added), Size(es)) == Before(es, Size(es) - 1) + ShowElem(LastElem(es).(tail := tail))
  {
    hide ShowElem;
    if es.rest.More? {
      BeforeAdded(es.rest, tail, added);
      Assoc(ShowElem(es.elem), Before(es.rest, Size(es.rest) - 1), ShowElem(LastElem(es).(tail := tail)));
    }
  }

  /** What precedes the key of a member added last: some text, and then the trivia after the comma. */
  lemma BeforeLastKey(pre: Text, head: Text, es: Elems, tail: Tail, added: Elem) returns (x: Text)
    requires es.More? && tail.Comma?
    ensures var after := Extended(es, tail, added);
      Size(after) == Size(es) + 1 && BeforeKey(pre, head, after, Size(es)) == x + tail.after
  {
    hide ShowLead, Show, Extended, Before;
    BeforeAdded(es, tail, added);
    var last := LastElem(es).(tail := tail);
    var q, b := pre + [LBRACE] + head, Before(es, Size(es) - 1);
    ElemText(last);
    var l := ShowLead(last.lead) + Show(last.value);
    x := q + (b + (l + (tail.before + [COMMA])));
    Assoc(l, tail.before + [COMMA], tail.after);
    Assoc(b, l + (tail.before + [COMMA]), tail.after);
    Assoc(q, b + (l + (tail.before + [COMMA])), tail.after);
  }

  /** The line feeds of an object a member was added to. */
  lemma LastLines(head: Text, es: Elems, cut: nat, lead: Text, key: Text, value: Tree)
    requires es.More? && cut <= |LastTrivia(LastElem(es).tail)|
    ensures var after := Branch(true, head,
        Extended(es, OldTail(LastElem(es).tail, cut, lead), WrittenElem(key, value, NewTail(LastElem(es).tail, cut))));
      && (LF in lead ==> !OneLine(after))
      && (OneLine(Branch(true, head, es)) && LF !in lead && LF !in Show(value) ==> OneLine(after))
  {
    hide Show, UpToTrivia, Extended, WrittenElem, WrittenMember, OldTail, NewTail;
    var after := Branch(true, head,
      Extended(es, OldTail(LastElem(es).tail, cut, lead), WrittenElem(key, value, NewTail(LastElem(es).tail, cut))));
    var tail, up := LastElem(es).tail, UpToTrivia([], head, es);
    var trivia, member := LastTrivia(tail), WrittenMember(key, Show(value));
    ObjectText([], head, es, []);
    EditedText([], head, es, [], cut, lead, key, value);
    NothingAround(Show(Branch(true, head, es)));
    NothingAround(Show(after));
    MemberLines(key, Show(value));
    SplitLines(up, trivia, [RBRACE] + [], cut);
    JoinLines(up, if tail.Plain? then [COMMA] else [], trivia[..cut], lead, member, if tail.Plain? then [] else [COMMA], trivia[cut..] + ([RBRACE] + []));
  }

  lemma NothingAround(t: Text)
    ensures [] + t + [] == t
  {
  }

  lemma MemberLines(key: Text, value: Text)
    ensures LF !in value ==> LF !in WrittenMember(key, value)
  {
    hide Strings.Escape;
    EscapeHasNoLine(key);
  }

  lemma SplitLines(up: Text, trivia: Text, z: Text, cut: nat)
    requires cut <= |trivia|
    ensures LF !in up + (trivia + z) ==> LF !in up && LF !in trivia[..cut] && LF !in trivia[cut..] + z
  {
    var t := up + (trivia + z);
    assert forall i :: 0 <= i < |up| ==> t[i] == up[i];
    assert forall i :: 0 <= i < |trivia| + |z| ==> t[|up| + i] == (trivia + z)[i];
    assert forall i :: 0 <= i < cut ==> trivia[..cut][i] == (trivia + z)[i];
    assert forall i :: 0 <= i < |trivia| - cut + |z| ==> (trivia[cut..] + z)[i] == (trivia + z)[cut + i];
  }

  lemma JoinLines(up: Text, comma: Text, t: Text, lead: Text, member: Text, end: Text, z: Text)
    ensures var s := up + comma + t + (lead + member + end) + z;
      LF in s <==> LF in up || LF in comma || LF in t || LF in lead || LF in member || LF in end || LF in z
  {
    InThree(lead, member, end);
    InThree(up, comma, t);
    InThree(up + comma + t, lead + member + end, z);
  }

  lemma LastSpot(pre: Text, head: Text, es: Elems, post: Text, style: Style, path: seq<Text>, value: Json) returns (s: Spot)
    requires es.More? && Formed(Branch(true, head, es)) && IsStyle(style) && path != [] && Times(es, path[0]) == 0
    requires Clear(pre + Show(Branch(true, head, es)) + post, NodeOf(Branch(true, head, es), |pre|))
    ensures var tree := Branch(true, head, es);
      var text, node := pre + Show(tree) + post, NodeOf(tree, |pre|);
      && CutOf(text, node) <= |LastTrivia(LastElem(es).tail)|
      && var after := LastInserted(text, style, node, head, es, path[0], Wrapped(path[1..], value));
      && SpotOf(pre, after, post, path) == Some(s) && Rendered(s, value, style) && s.inline == IsInline(text, node)
  {
    hide Show, NodeOf, RenderedTree, LastIndent, LineIndent, KeyOf, Wrapped, IsIndent, OneLine, WrittenElem, NewTail, Extended, IsInline, Clear, CutOf, IsGap, Formed, Times, IndexOf, ElemAt, Render;
    var tree := Branch(true, head, es);
    var text, node := pre + Show(tree) + post, NodeOf(tree, |pre|);
    var data := Wrapped(path[1..], value);
    CutIsGaps(pre, head, es, post, style);
    var cut, lead, written := CutOf(text, node), LastLead(text, style, node), RenderedLast(text, style, node, data);
    var tail := OldTail(LastElem(es).tail, cut, lead);
    var added := WrittenElem(path[0], written, NewTail(LastElem(es).tail, cut));
    var all := Extended(es, tail, added);
    WrittenKey(path[0], written, NewTail(LastElem(es).tail, cut));
    ExtendedTimes(es, tail, added, path[0]);
    LastIndentIsIndent(text, style, node);
    LastLines(head, es, cut, lead, path[0], written);
    var indent, inline := LastIndent(text, style, node), IsInline(text, node);
    OneLineIs(pre, tree, post);
    var x := BeforeLastKey(pre, head, es, tail, added);
    if inline {
      RenderedIsTree(data, style, indent, true);
      CompactIsInline(data, style, indent);
    } else {
      LastKeyLine(LastElem(es).tail, cut, x, style.eol, indent);
    }
    s := InsertedSpot(pre, head, all, post, style, indent, inline, path, value);
  }

  lemma OneLineIs(pre: Text, tree: Tree, post: Text)
    ensures IsInline(pre + Show(tree) + post, NodeOf(tree, |pre|)) == OneLine(tree)
  {
    hide Show;
    InlineIs(pre, tree, post);
  }

  lemma LastKeyLine(tail: Tail, cut: nat, x: Text, eol: Text, indent: Text)
    requires cut <= |LastTrivia(tail)| && IsEol(eol) && IsIndent(indent)
    ensures var q := x + OldTail(tail, cut, eol + indent).after; LineIndent(q, |q|) == indent
    ensures LF in eol + indent
  {
    hide LineIndent, IsIndent;
    var t := LastTrivia(tail)[..cut];
    Assoc(t, eol, indent);
    Assoc(x, t + eol, indent);
    assert (eol + indent)[|eol| - 1] == LF;
    IndentLine(x + (t + eol), indent);
  }
}
