/** Editing the text and then parsing it is parsing the text and then merging the edit. */
module Commutes {
  import opened Units
  import opened Trivia
  import Strings
  import opened Json
  import opened Values
  import opened Syntax
  import opened Nodes
  import opened Editor
  import opened TreeEdits
  import opened Layout
  import opened Inserts
  import opened Appends

  // ----- What an edit may change -----

  /**
   * `after` is `before` with nothing changed but the member `path` names: its value, replaced or
   * in turn only changed at the rest of the path, or the member itself, added last.
   */
  ghost predicate OnlyNamed(before: Tree, after: Tree, path: seq<Text>)
    decreases |path|
  {
    && path != [] && before.Branch? && before.braces && after.Branch? && after.braces
    && (|| after == before
        || FirstAdded(before, after, path[0])
        || LastAdded(before, after, path[0])
        || exists i: nat, value: Tree | i < Size(before.elems) ::
             && after == Branch(true, before.head, WithValue(before.elems, i, value))
             && KeyOf(ElemAt(before.elems, i).lead) == path[0]
             && (|path| > 1 ==> OnlyNamed(ElemAt(before.elems, i).value, value, path[1..])))
  }

  /** A member added to an empty object: only blanks may go, and no comment is touched. */
  ghost predicate FirstAdded(before: Tree, after: Tree, key: Text)
    requires before.Branch? && after.Branch?
  {
    && before.elems.End? && after.elems.More? && after.elems.rest.End?
    && KeyOf(after.elems.elem.lead) == key && after.elems.elem.tail.Plain?
    && (|| (IsSpaces(before.head) && IsBlanks(after.head) && IsBlanks(after.elems.elem.tail.before))
        || exists cut: nat, x: Text, y: Text | cut <= |before.head| && IsBlanks(x) && IsBlanks(y) ::
             after.head == before.head[..cut] + x && after.elems.elem.tail.before == y + before.head[cut..])
  }

  /** A member added after the last one: the trivia there is cut in two around it, and none is lost. */
  ghost predicate LastAdded(before: Tree, after: Tree, key: Text)
    requires before.Branch? && after.Branch?
  {
    && before.elems.More?
    && exists cut: nat, lead: Text, value: Tree | cut <= |LastTrivia(LastElem(before.elems).tail)| && IsBlanks(lead) ::
         after == Branch(true, before.head, Extended(before.elems,
           OldTail(LastElem(before.elems).tail, cut, lead),
           WrittenElem(key, value, NewTail(LastElem(before.elems).tail, cut))))
  }

  // ----- Finding a member -----

  lemma MatchingFirst(m: Member, rest: seq<Member>, key: Text)
    ensures Matching([m] + rest, key) == (if m.key == key then [m] else []) + Matching(rest, key)
  {
    assert ([m] + rest)[1..] == rest;
  }

  lemma {:induction false} MatchingTimes(es: Elems, at: nat, key: Text)
    ensures |Matching(MembersOf(es, at), key)| == Times(es, key)
  {
    hide ShowElem, KeyOf, Matching, NodeOf;
    if es.More? {
      var rest := at + |ShowElem(es.elem)|;
      MatchingTimes(es.rest, rest, key);
      MatchingFirst(MemberOf(es.elem, at), MembersOf(es.rest, rest), key);
    } else {
      NothingMatches(key);
    }
  }

  lemma NothingMatches(key: Text)
    ensures Matching([], key) == []
  {
  }

  lemma MemberKey(elem: Elem, at: nat)
    ensures MemberOf(elem, at).key == KeyOf(elem.lead)
  {
  }

  function IndexOf(es: Elems, key: Text): (i: nat)
    requires Times(es, key) > 0
  {
    if KeyOf(es.elem.lead) == key then 0 else 1 + IndexOf(es.rest, key)
  }

  lemma {:induction false} IndexIs(es: Elems, key: Text)
    requires Times(es, key) > 0
    ensures IndexOf(es, key) < Size(es) && KeyOf(ElemAt(es, IndexOf(es, key)).lead) == key
  {
    hide KeyOf;
    if KeyOf(es.elem.lead) != key {
      IndexIs(es.rest, key);
    }
  }

  lemma {:induction false} MatchingIs(es: Elems, at: nat, key: Text)
    requires Times(es, key) == 1 && IndexOf(es, key) < Size(es)
    ensures var i := IndexOf(es, key);
      Matching(MembersOf(es, at), key) == [MemberOf(ElemAt(es, i), at + |Before(es, i)|)]
  {
    hide ShowElem, KeyOf, Matching, MemberOf;
    var rest := at + |ShowElem(es.elem)|;
    MatchingFirst(MemberOf(es.elem, at), MembersOf(es.rest, rest), key);
    MemberKey(es.elem, at);
    if KeyOf(es.elem.lead) == key {
      MatchingTimes(es.rest, rest, key);
    } else {
      MatchingIs(es.rest, rest, key);
    }
  }

  // ----- A value in its place -----

  function BeforeValue(pre: Text, head: Text, es: Elems, i: nat): Text
    requires i < Size(es)
  {
    pre + [LBRACE] + head + Before(es, i) + ShowLead(ElemAt(es, i).lead)
  }

  function AfterValue(es: Elems, i: nat, post: Text): Text
    requires i < Size(es)
  {
    ShowTail(ElemAt(es, i).tail) + (After(true, es, i) + post)
  }

  lemma ValueInPlace(pre: Text, head: Text, es: Elems, i: nat, post: Text)
    requires i < Size(es)
    ensures pre + Show(Branch(true, head, es)) + post
         == BeforeValue(pre, head, es, i) + Show(ElemAt(es, i).value) + AfterValue(es, i, post)
  {
    hide Show, ShowLead, ShowTail, ShowElem, ShowElems, Before, After;
    var elem, after := ElemAt(es, i), After(true, es, i);
    SplitAtElem(true, es, i);
    BranchText(head, es);
    InBraces(pre, head, Before(es, i), ShowElem(elem), after, post);
    ElemText(elem);
    var q := pre + [LBRACE] + head + Before(es, i);
    Assoc(q, ShowLead(elem.lead) + Show(elem.value), ShowTail(elem.tail));
    Assoc(q, ShowLead(elem.lead), Show(elem.value));
    Assoc(q + ShowLead(elem.lead) + Show(elem.value), ShowTail(elem.tail), after + post);
  }

  lemma ValueReplaced(pre: Text, head: Text, es: Elems, i: nat, value: Tree, post: Text)
    requires i < Size(es)
    ensures pre + Show(Branch(true, head, WithValue(es, i, value))) + post
         == BeforeValue(pre, head, es, i) + Show(value) + AfterValue(es, i, post)
  {
    hide Show, ShowLead, ShowTail, ShowElem, Before, After;
    WithValueText(true, es, i, value);
    ValueInPlace(pre, head, WithValue(es, i, value), i, post);
  }

  // ----- What the missing part of a path means -----

  lemma {:induction false} WrappedMeans(path: seq<Text>, value: Json, keep: bool)
    requires path != []
    ensures Meaning(Wrapped(path, value)) == Value.Obj(Merged(map[], path, Meaning(value), keep))
  {
    var inner := Wrapped(path[1..], value);
    var fields := [Field(path[0], inner)];
    assert fields[1..] == [];
    assert FieldMeanings(fields, map[]) == map[path[0] := Meaning(inner)];
    if |path| > 1 {
      WrappedMeans(path[1..], value, keep);
    }
  }

  /** Setting a missing key to the wrapped value is the merge. */
  lemma MissingMerged(before: Fields, path: seq<Text>, value: Json, keep: bool)
    requires path != [] && path[0] !in before
    ensures Merged(before, path, Meaning(value), keep) == before[path[0] := Meaning(Wrapped(path[1..], value))]
  {
    hide Meaning;
    if |path| > 1 {
      WrappedMeans(path[1..], value, keep);
    } else {
      assert path[1..] == [];
    }
  }

  // ----- The edit of an object -----

  /** The guard of every landing on the way of `path`: only an addition after a last member has one. */
  predicate ClearAlong(text: Text, node: Node, path: seq<Text>)
    decreases |path|
  {
    path == [] || node.members.None? ||
    var matches := Matching(node.members.value, path[0]);
    if matches == [] then node.members.value != [] ==> Clear(text, node)
    else |matches| > 1 || ClearAlong(text, matches[0].value, path[1..])
  }

  /** What an edit of the object `tree` must do: splice its text, stay well formed, mean the merge, and change nothing else. */
  ghost predicate Edits(pre: Text, tree: Tree, post: Text, style: Style, path: seq<Text>, value: Json, keep: bool, after: Tree)
    requires tree.Branch? && tree.braces
  {
    && UpsertIn(pre + Show(tree) + post, style, NodeOf(tree, |pre|), path, value, keep) == Some(pre + Show(after) + post)
    && Formed(after) && after.Branch? && after.braces
    && FieldsOf(after.elems, map[]) == Merged(FieldsOf(tree.elems, map[]), path, Meaning(value), keep)
    && OnlyNamed(tree, after, path)
  }

  lemma OneField(elem: Elem)
    ensures FieldsOf(More(elem, End), map[]) == map[KeyOf(elem.lead) := ValueOf(elem.value)]
  {
  }

  lemma AddsFirst(pre: Text, head: Text, post: Text, style: Style, path: seq<Text>, value: Json, keep: bool)
    returns (after: Tree)
    requires IsGap(head) && IsStyle(style) && path != []
    ensures Edits(pre, Branch(true, head, End), post, style, path, value, keep, after)
    ensures var text := pre + Show(Branch(true, head, End)) + post;
      after == FirstInserted(text, style, |pre|, head, path[0], Wrapped(path[1..], value))
  {
    hide Show, Formed, ValueOf, Meaning, IsGap, InsertFirst, Merged, KeyOf, FieldsOf, FirstAdded;
    var tree := Branch(true, head, End);
    var text := pre + Show(tree) + post;
    var data := Wrapped(path[1..], value);
    after := FirstInserted(text, style, |pre|, head, path[0], data);
    FirstIsInserted(pre, head, post, style, path[0], data);
    MissingMerged(map[], path, value, keep);
    FirstIsAdded(text, style, |pre|, head, path[0], data);
    OneField(after.elems.elem);
    NoFields();
  }

  lemma NoFields()
    ensures FieldsOf(End, map[]) == map[]
  {
  }

  lemma FirstIsAdded(text: Text, style: Style, at: nat, head: Text, key: Text, data: Json)
    requires IsStyle(style)
    ensures FirstAdded(Branch(true, head, End), FirstInserted(text, style, at, head, key, data), key)
  {
    hide LineIndent, LineStart, StartsLine, IsSpaces, RenderedFirst, Strings.Quote, Strings.IsString, Strings.Unquote;
    var after := FirstInserted(text, style, at, head, key, data);
    KeyIsPrinted(key, [SPACE]);
    LineIndentIsIndent(text, at);
    var objectIndent := LineIndent(text, at);
    var start := LineStart(text, at + 1 + |head|);
    if IsSpaces(head) {
      assert IsBlanks(style.eol + (objectIndent + style.unit)) && IsBlanks(style.eol + objectIndent);
    } else if StartsLine(text, at + 1 + |head|) && at + 1 <= start {
      FirstCut(head, after, start - (at + 1), objectIndent + style.unit, style.eol);
    } else {
      NothingCut(head, style.eol + objectIndent);
      FirstCut(head, after, |head|, style.eol + (objectIndent + style.unit), style.eol + objectIndent);
    }
  }

  lemma NothingCut(head: Text, tail: Text)
    ensures head[..|head|] == head && tail + head[|head|..] == tail
  {
  }

  lemma FirstCut(head: Text, after: Tree, cut: nat, x: Text, y: Text)
    requires after.Branch? && after.elems.More? && after.elems.elem.tail.Plain? && cut <= |head| && IsBlanks(x) && IsBlanks(y)
    requires after.head == head[..cut] + x && after.elems.elem.tail.before == y + head[cut..]
    ensures exists cut: nat, x: Text, y: Text | cut <= |head| && IsBlanks(x) && IsBlanks(y) ::
      after.head == head[..cut] + x && after.elems.elem.tail.before == y + head[cut..]
  {
  }

  lemma AddsLast(pre: Text, head: Text, es: Elems, post: Text, style: Style, path: seq<Text>, value: Json, keep: bool)
    returns (after: Tree)
    requires es.More? && Formed(Branch(true, head, es)) && IsStyle(style) && path != [] && Times(es, path[0]) == 0
    requires Clear(pre + Show(Branch(true, head, es)) + post, NodeOf(Branch(true, head, es), |pre|))
    ensures Edits(pre, Branch(true, head, es), post, style, path, value, keep, after)
    ensures var text, node := pre + Show(Branch(true, head, es)) + post, NodeOf(Branch(true, head, es), |pre|);
      && CutOf(text, node) <= |LastTrivia(LastElem(es).tail)| && node.members.Some? && node.members.value != []
      && after == LastInserted(text, style, node, head, es, path[0], Wrapped(path[1..], value))
  {
    hide Show, Formed, ValueOf, Meaning, Clear, InsertLast, Merged, KeyOf, FieldsOf, LastAdded, NodeOf, Extended, WrittenElem, CutOf, LastLead, RenderedLast;
    var tree := Branch(true, head, es);
    var text, node := pre + Show(tree) + post, NodeOf(tree, |pre|);
    var data := Wrapped(path[1..], value);
    AnchorIs(pre, head, es);
    LastIsInserted(pre, head, es, post, style, path[0], data);
    after := LastInserted(text, style, node, head, es, path[0], data);
    MissingFound(tree, |pre|, path[0]);
    MissingMerged(FieldsOf(es, map[]), path, value, keep);
    var cut, lead, written := CutOf(text, node), LastLead(text, style, node), RenderedLast(text, style, node, data);
    ExtendedIs(es, cut, lead, path[0], written);
    LastIsAdded(head, es, cut, lead, path[0], written, text, style, node);
  }

  lemma MissingFound(tree: Tree, at: nat, key: Text)
    requires tree.Branch? && tree.braces && Times(tree.elems, key) == 0
    ensures NodeOf(tree, at).members.Some? && Matching(NodeOf(tree, at).members.value, key) == []
    ensures key !in FieldsOf(tree.elems, map[])
  {
    hide KeyOf, ValueOf, NodeOf, Matching;
    MatchingOf(tree, at, key);
    TimesIsIn(tree.elems, key);
    FieldsKeys(tree.elems, map[]);
  }

  lemma ExtendedIs(es: Elems, cut: nat, lead: Text, key: Text, value: Tree)
    requires es.More? && cut <= |LastTrivia(LastElem(es).tail)|
    ensures FieldsOf(Extended(es, OldTail(LastElem(es).tail, cut, lead), WrittenElem(key, value, NewTail(LastElem(es).tail, cut))), map[])
         == FieldsOf(es, map[])[key := ValueOf(value)]
  {
    hide ValueOf, Strings.Quote, Strings.IsString, Strings.Unquote;
    KeyIsPrinted(key, [SPACE]);
    ExtendedFields(es, OldTail(LastElem(es).tail, cut, lead), WrittenElem(key, value, NewTail(LastElem(es).tail, cut)), map[]);
  }

  lemma LastIsAdded(head: Text, es: Elems, cut: nat, lead: Text, key: Text, value: Tree, text: Text, style: Style, node: Node)
    requires es.More? && cut <= |LastTrivia(LastElem(es).tail)|
    requires node.members.Some? && node.members.value != [] && IsStyle(style) && lead == LastLead(text, style, node)
    ensures LastAdded(Branch(true, head, es), Branch(true, head,
      Extended(es, OldTail(LastElem(es).tail, cut, lead), WrittenElem(key, value, NewTail(LastElem(es).tail, cut)))), key)
  {
    hide Extended, WrittenElem, OldTail, NewTail, LastIndent, IsInline;
    LastIndentIsIndent(text, style, node);
  }

  lemma Replaces(pre: Text, head: Text, es: Elems, post: Text, style: Style, path: seq<Text>, value: Json)
    returns (after: Tree)
    requires Formed(Branch(true, head, es)) && IsStyle(style) && |path| == 1 && Times(es, path[0]) == 1
    ensures Edits(pre, Branch(true, head, es), post, style, path, value, false, after)
    ensures var tree, i := Branch(true, head, es), IndexOf(es, path[0]);
      var text := pre + Show(tree) + post;
      && i < Size(es)
      && after == Branch(true, head, WithValue(es, i,
           RenderedTree(value, style, LineIndent(text, KeyStart(pre, tree, i)), IsInline(text, NodeOf(tree, |pre|)))))
  {
    hide Show, Formed, ValueOf, Meaning, KeyOf, FieldsOf, NodeOf, IsGap, RenderedTree, Render, LineIndent, IsInline, BeforeValue, AfterValue, Splice;
    var tree := Branch(true, head, es);
    var text, node := pre + Show(tree) + post, NodeOf(tree, |pre|);
    var i := IndexOf(es, path[0]);
    FoundAt(tree, pre, path[0]);
    var found := Matching(node.members.value, path[0])[0];
    var indent, inline := LineIndent(text, found.keyStart), IsInline(text, node);
    var written := RenderedTree(value, style, indent, inline);
    LineIndentIsIndent(text, found.keyStart);
    RenderedIsTree(value, style, indent, inline);
    after := Branch(true, head, WithValue(es, i, written));
    BranchFormed(head, es);
    ValueInPlace(pre, head, es, i, post);
    ValueReplaced(pre, head, es, i, written, post);
    SpliceAt(BeforeValue(pre, head, es, i), Show(ElemAt(es, i).value), AfterValue(es, i, post), Show(written));
    WithValueMerged(head, es, i, written);
  }

  lemma BranchFormed(head: Text, es: Elems)
    requires Formed(Branch(true, head, es))
    ensures IsGap(head) && FormedElems(true, es)
  {
  }

  /** Where the key of member `i` starts. */
  function KeyStart(pre: Text, tree: Tree, i: nat): nat
    requires tree.Branch? && i < Size(tree.elems)
  {
    |pre| + 1 + |tree.head| + |Before(tree.elems, i)|
  }

  /** The one member a key names, in the tree and among the nodes. */
  lemma FoundAt(tree: Tree, pre: Text, key: Text)
    requires tree.Branch? && tree.braces && Times(tree.elems, key) == 1
    ensures var node, i := NodeOf(tree, |pre|), IndexOf(tree.elems, key);
      && i < Size(tree.elems) && KeyOf(ElemAt(tree.elems, i).lead) == key
      && node.members.Some?
      && var at := |BeforeValue(pre, tree.head, tree.elems, i)|;
      && |Matching(node.members.value, key)| == 1
      && var found := Matching(node.members.value, key)[0];
      && found.value == NodeOf(ElemAt(tree.elems, i).value, at)
      && found.value.start == at && found.value.end == at + |Show(ElemAt(tree.elems, i).value)|
      && found.keyStart == KeyStart(pre, tree, i)
  {
    hide KeyOf, ShowLead, Before, Show, Matching;
    IndexIs(tree.elems, key);
    MatchingIs(tree.elems, |pre| + 1 + |tree.head|, key);
  }

  lemma WithValueMerged(head: Text, es: Elems, i: nat, value: Tree)
    requires FormedElems(true, es) && IsGap(head) && Formed(value) && i < Size(es)
    requires Times(es, KeyOf(ElemAt(es, i).lead)) == 1
    ensures Formed(Branch(true, head, WithValue(es, i, value)))
    ensures FieldsOf(WithValue(es, i, value), map[]) == FieldsOf(es, map[])[KeyOf(ElemAt(es, i).lead) := ValueOf(value)]
  {
    hide ValueOf, KeyOf, IsGap, FormedElems;
    WithValueFormed(true, es, i, value);
    WithValueFields(es, i, value, map[]);
  }

  lemma {:induction false} UpsertEdits(pre: Text, tree: Tree, post: Text, style: Style, path: seq<Text>, value: Json, keep: bool)
    returns (after: Tree)
    requires Formed(tree) && tree.Branch? && tree.braces && IsStyle(style)
    requires UpsertIn(pre + Show(tree) + post, style, NodeOf(tree, |pre|), path, value, keep).Some?
    requires ClearAlong(pre + Show(tree) + post, NodeOf(tree, |pre|), path)
    ensures Edits(pre, tree, post, style, path, value, keep, after)
    decreases |path|
  {
    hide Show, Formed, NodeOf, IsStyle, Edits, Clear, IndexOf, KeyOf;
    var es, key := tree.elems, path[0];
    var node := NodeOf(tree, |pre|);
    MatchingOf(tree, |pre|, key);
    if Times(es, key) == 0 {
      if es.End? {
        BranchFormed(tree.head, es);
        after := AddsFirst(pre, tree.head, post, style, path, value, keep);
      } else {
        AnchorIs(pre, tree.head, es);
        after := AddsLast(pre, tree.head, es, post, style, path, value, keep);
      }
    } else if |path| == 1 {
      if keep {
        after := tree;
        Keeps(pre, tree, post, style, path, value);
      } else {
        after := Replaces(pre, tree.head, es, post, style, path, value);
      }
    } else {
      FoundAt(tree, pre, key);
      var i := IndexOf(es, key);
      var inner := ElemAt(es, i).value;
      ValueInPlace(pre, tree.head, es, i, post);
      BranchFormed(tree.head, es);
      InnerFormed(es, i, |BeforeValue(pre, tree.head, es, i)|);
      var changed := UpsertEdits(
        BeforeValue(pre, tree.head, es, i), inner, AfterValue(es, i, post), style, path[1..], value, keep);
      after := Branch(true, tree.head, WithValue(es, i, changed));
      EditsInside(pre, tree, post, style, path, value, keep, i, changed);
    }
  }

  lemma MatchingOf(tree: Tree, at: nat, key: Text)
    requires tree.Branch? && tree.braces
    ensures var node := NodeOf(tree, at);
      && node.members.Some? && |Matching(node.members.value, key)| == Times(tree.elems, key)
      && (node.members.value == [] <==> tree.elems.End?)
  {
    hide Show, KeyOf, Matching;
    MatchingTimes(tree.elems, at + 1 + |tree.head|, key);
  }

  lemma InnerFormed(es: Elems, i: nat, at: nat)
    requires FormedElems(true, es) && i < Size(es)
    ensures var value := ElemAt(es, i).value;
      && Formed(value) && (NodeOf(value, at).members.Some? ==> value.Branch? && value.braces)
  {
    ElemAtFormed(true, es, i);
  }

  lemma Keeps(pre: Text, tree: Tree, post: Text, style: Style, path: seq<Text>, value: Json)
    requires Formed(tree) && tree.Branch? && tree.braces && |path| == 1 && Times(tree.elems, path[0]) == 1
    ensures Edits(pre, tree, post, style, path, value, true, tree)
  {
    hide Show, Formed, NodeOf, KeyOf, ValueOf, Meaning, Matching, FirstAdded, LastAdded;
    FoundAt(tree, pre, path[0]);
    TimesIsIn(tree.elems, path[0]);
    FieldsKeys(tree.elems, map[]);
  }

  lemma EditsInside(pre: Text, tree: Tree, post: Text, style: Style, path: seq<Text>, value: Json, keep: bool, i: nat, changed: Tree)
    requires Formed(tree) && tree.Branch? && tree.braces && |path| > 1 && Times(tree.elems, path[0]) == 1
    requires i == IndexOf(tree.elems, path[0]) && i < Size(tree.elems)
    requires ElemAt(tree.elems, i).value.Branch? && ElemAt(tree.elems, i).value.braces
    requires Edits(BeforeValue(pre, tree.head, tree.elems, i), ElemAt(tree.elems, i).value, AfterValue(tree.elems, i, post),
      style, path[1..], value, keep, changed)
    ensures Edits(pre, tree, post, style, path, value, keep, Branch(true, tree.head, WithValue(tree.elems, i, changed)))
  {
    hide Show, Formed, NodeOf, KeyOf, Meaning, Matching, FirstAdded, LastAdded, BeforeValue, AfterValue, IndexOf, FieldsOf;
    var es := tree.elems;
    var inner := ElemAt(es, i).value;
    FoundAt(tree, pre, path[0]);
    ValueInPlace(pre, tree.head, es, i, post);
    ValueReplaced(pre, tree.head, es, i, changed, post);
    BranchFormed(tree.head, es);
    WithValueMerged(tree.head, es, i, changed);
    FieldOnce(es, i, map[]);
    assert NodeOf(inner, |BeforeValue(pre, tree.head, es, i)|).members.Some? by { ObjectNode(inner, |BeforeValue(pre, tree.head, es, i)|); }
    InsideNamed(tree, path, i, changed);
  }

  lemma ObjectNode(tree: Tree, at: nat)
    requires tree.Branch? && tree.braces
    ensures NodeOf(tree, at).members.Some?
  {
  }

  lemma InsideNamed(tree: Tree, path: seq<Text>, i: nat, changed: Tree)
    requires tree.Branch? && tree.braces && |path| > 1 && i < Size(tree.elems)
    requires KeyOf(ElemAt(tree.elems, i).lead) == path[0] && OnlyNamed(ElemAt(tree.elems, i).value, changed, path[1..])
    ensures OnlyNamed(tree, Branch(true, tree.head, WithValue(tree.elems, i, changed)), path)
  {
    hide KeyOf, FirstAdded, LastAdded, WithValue;
  }
}
