/**
 * What an edit does when its guard does not hold: the member lands inside a block comment, which
 * takes it in, so the file still means what it meant. The guard is exact.
 */
module Strays {
  import opened Units
  import opened Trivia
  import opened Json
  import opened Values
  import opened Syntax
  import opened Nodes
  import opened Editor
  import opened TreeEdits
  import opened Layout
  import opened Appends
  import opened Commutes
  import opened Documents
  import opened JsonEdits
  import opened Landings

  // ----- Text inside a comment -----

  /** Two texts joined close a comment only where one of them does, if no star-slash spans the joint. */
  lemma {:induction false} CloseAcross(a: Text, b: Text, from: nat)
    requires from <= |a| && CloseFrom(a, from) == None && b != [] && b[0] != SLASH
    ensures CloseFrom(a + b, from) == Add(|a|, CloseFrom(b, 0))
    decreases |a| - from
  {
    var s := a + b;
    if from == |a| {
      CloseShifted(s, |a|, 0);
      assert s[|a|..] == b;
    } else {
      CloseAcross(a, b, from + 1);
      if from + 2 <= |a| {
        assert s[from] == a[from] && s[from + 1] == a[from + 1];
      } else if from + 2 <= |s| {
        assert s[from + 1] == b[0];
      }
    }
  }

  /** Text without a star-slash put inside a block comment stays inside it. */
  lemma {:induction false} CommentTakesIn(t1: Text, x: Text, t2: Text)
    requires IsGap(t1 + t2) && Skip(t1) == None
    requires CloseFrom(x, 0) == None && x != [] && x[0] != SLASH && t2 != [] && t2[0] != SLASH
    ensures IsGap(t1 + x + t2)
    decreases |t1|
  {
    hide FirstPiece, IsClosed, Skip, CloseFrom;
    SkipUnfolds(t1);
    Assoc(t1, x, t2);
    if FirstPiece(t1).Piece? {
      var n := FirstPiece(t1).len;
      NotLast(t1);
      PieceBefore(t1, t2);
      PieceBefore(t1, x + t2);
      assert (t1 + t2)[n..] == t1[n..] + t2;
      assert (t1 + (x + t2))[n..] == t1[n..] + x + t2;
      CommentTakesIn(t1[n..], x, t2);
    } else {
      UnclosedTakesIn(t1, x, t2);
    }
  }

  lemma NotLast(t: Text)
    requires FirstPiece(t).Piece? && Skip(t) == None
    ensures IsClosed(t, FirstPiece(t))
  {
    hide FirstPiece, Skip;
    SkipUnfolds(t);
    NothingSkipped();
    assert t[|t|..] == [];
  }

  lemma UnclosedTakesIn(t1: Text, x: Text, t2: Text)
    requires IsGap(t1 + t2) && FirstPiece(t1).Unclosed?
    requires CloseFrom(x, 0) == None && x != [] && x[0] != SLASH && t2 != [] && t2[0] != SLASH
    ensures IsGap(t1 + (x + t2))
  {
    hide CloseFrom, IsGap;
    CloseAcross(t1, t2, 2);
    CloseAcross(t1, x + t2, 2);
    CloseAcross(x, t2, 0);
    GapIsPiece(t1 + t2);
    var c := CloseFrom(t2, 0).value;
    CommentPiece(t1, t2);
    CommentPiece(t1, x + t2);
    assert (t1 + t2)[|t1| + c + 2..] == t2[c + 2..];
    assert (t1 + (x + t2))[|t1| + |x| + c + 2..] == t2[c + 2..];
    PieceIsGap(t1 + (x + t2));
  }

  lemma GapIsPiece(s: Text)
    requires IsGap(s) && s != []
    ensures FirstPiece(s).Piece? && IsGap(s[FirstPiece(s).len..])
  {
  }

  lemma PieceIsGap(s: Text)
    requires StartsWith2(s, SLASH, STAR) && FirstPiece(s).Piece? && IsGap(s[FirstPiece(s).len..])
    ensures IsGap(s)
  {
  }

  lemma CommentPiece(t: Text, more: Text)
    requires FirstPiece(t).Unclosed?
    ensures StartsWith2(t + more, SLASH, STAR)
    ensures FirstPiece(t + more) == match CloseFrom(t + more, 2) case None => Unclosed case Some(c) => Piece(c + 2)
  {
    hide CloseFrom;
    assert (t + more)[0] == t[0] && (t + more)[1] == t[1];
  }

  /** Before a line break, a gap is cut either inside a block comment or between whole trivia. */
  lemma {:induction false} CutInGap(t: Text, k: nat)
    requires IsGap(t) && k < |t| && (t[k] == LF || t[k] == CR)
    ensures Skip(t[..k]) == None || Skip(t[..k]) == Some(k)
    decreases k
  {
    hide FirstPiece, IsClosed, Skip;
    GapIsPiece(t);
    var n := FirstPiece(t).len;
    SkipUnfolds(t[..k]);
    if n <= k {
      PieceWithin(t, k);
      assert t[..k][n..] == t[n..][..k - n];
      CutInGap(t[n..], k - n);
    } else {
      CutInPiece(t, k);
    }
  }

  lemma CutInPiece(t: Text, k: nat)
    requires FirstPiece(t).Piece? && k < FirstPiece(t).len && k < |t| && (t[k] == LF || t[k] == CR)
    ensures Skip(t[..k]) == None || Skip(t[..k]) == Some(k)
  {
    hide Skip, CloseFrom;
    var s := t[..k];
    SkipUnfolds(s);
    NothingSkipped();
    if k >= 2 {
      if StartsWith2(t, SLASH, SLASH) {
        assert LF !in s by { assert s == t[..Find(t, LF)][..k]; }
        FindNothing(s);
        assert s[k..] == [];
      } else {
        CloseLate(t, k, 2);
      }
    } else if k == 0 {
      assert s == [];
    }
  }

  lemma {:induction false} CloseLate(t: Text, k: nat, from: nat)
    requires k <= |t| && CloseFrom(t, from).Some? && k < CloseFrom(t, from).value + 2
    ensures CloseFrom(t[..k], from) == None
    decreases |t| - from
  {
    if from + 2 <= k {
      CloseLate(t, k, from + 1);
    }
  }

  // ----- The edit of an object whose landing is inside a comment -----

  /** `es` with other trivia, or a comma, after its last element. */
  function WithTail(es: Elems, tail: Tail): Elems
    requires es.More?
  {
    if es.rest.End? then More(es.elem.(tail := tail), End) else More(es.elem, WithTail(es.rest, tail))
  }

  lemma {:induction false} WithTailText(es: Elems, tail: Tail)
    requires es.More?
    ensures ShowElems(true, WithTail(es, tail))
         == Before(es, Size(es) - 1) + ShowElem(LastElem(es).(tail := tail)) + [RBRACE]
  {
    hide ShowElem;
    if es.rest.More? {
      WithTailText(es.rest, tail);
      Regroup4(ShowElem(es.elem), Before(es.rest, Size(es.rest) - 1), ShowElem(LastElem(es).(tail := tail)), [RBRACE]);
    } else {
      assert ShowElems(true, More(es.elem.(tail := tail), End)) == ShowElem(es.elem.(tail := tail)) + [RBRACE];
    }
  }

  lemma {:induction false} WithTailKeeps(es: Elems, tail: Tail, so_far: Fields)
    requires es.More? && FormedElems(true, es) && FormedTail(tail)
    ensures FormedElems(true, WithTail(es, tail)) && FieldsOf(WithTail(es, tail), so_far) == FieldsOf(es, so_far)
  {
    hide FormedLead, Formed, FormedTail, KeyOf, ValueOf;
    if es.rest.More? {
      WithTailKeeps(es.rest, tail, so_far[KeyOf(es.elem.lead) := ValueOf(es.elem.value)]);
    }
  }

  /** The text an edit adds after an object's last member. */
  function AddedText(text: Text, style: Style, node: Node, key: Text, data: Json): Text
    requires node.members.Some? && node.members.value != []
  {
    LastLead(text, style, node)
    + WrittenMember(key, Render(data, style, LastIndent(text, style, node), IsInline(text, node)))
    + if node.trailingComma.None? then [] else [COMMA]
  }

  /** The object left by an edit that landed inside a comment: the comment holds the added text. */
  function Stuck(head: Text, es: Elems, cut: nat, added: Text): Tree
    requires es.More? && cut <= |LastTrivia(LastElem(es).tail)|
  {
    var tail := LastElem(es).tail;
    var trivia := LastTrivia(tail)[..cut] + added + LastTrivia(tail)[cut..];
    Branch(true, head, WithTail(es, Comma(if tail.Plain? then [] else tail.before, trivia)))
  }

  lemma StuckText(pre: Text, head: Text, es: Elems, post: Text, cut: nat, added: Text)
    requires es.More? && cut <= |LastTrivia(LastElem(es).tail)|
    ensures var tail := LastElem(es).tail;
      pre + Show(Stuck(head, es, cut, added)) + post ==
        UpToTrivia(pre, head, es) + (if tail.Plain? then [COMMA] else [])
        + LastTrivia(tail)[..cut] + added + (LastTrivia(tail)[cut..] + ([RBRACE] + post))
  {
    hide ShowLead, Before, ShowElems, Show, ShowElem, UpToTrivia, WithTail, ShowTail, LastTrivia;
    var tail := LastElem(es).tail;
    var t1, t2 := LastTrivia(tail)[..cut], LastTrivia(tail)[cut..];
    var before := if tail.Plain? then [] else tail.before;
    var last := LastElem(es).(tail := Comma(before, t1 + added + t2));
    WithTailInPlace(pre, head, es, last.tail, post);
    CommaInPlace(pre + [LBRACE] + head + Before(es, Size(es) - 1), last, [RBRACE] + post);
    CommaFollows(pre, head, es, last);
    StuckEnd(UpToTrivia(pre, head, es) + if tail.Plain? then [COMMA] else [], t1, added, t2, [RBRACE] + post);
  }

  lemma WithTailInPlace(pre: Text, head: Text, es: Elems, tail: Tail, post: Text)
    requires es.More?
    ensures pre + Show(Branch(true, head, WithTail(es, tail))) + post
         == pre + [LBRACE] + head + Before(es, Size(es) - 1) + ShowElem(LastElem(es).(tail := tail)) + ([RBRACE] + post)
  {
    hide Before, ShowElems, Show, ShowElem, WithTail;
    WithTailText(es, tail);
    BranchText(head, WithTail(es, tail));
    InBraces(pre, head, Before(es, Size(es) - 1), ShowElem(LastElem(es).(tail := tail)), [RBRACE], post);
  }

  lemma CommaInPlace(q: Text, elem: Elem, z: Text)
    requires elem.tail.Comma?
    ensures q + ShowElem(elem) + z
         == q + ShowLead(elem.lead) + Show(elem.value) + (elem.tail.before + [COMMA]) + (elem.tail.after + z)
  {
    hide Show, ShowElem, ShowLead, ShowTail;
    ElemText(elem);
    ElemInPlace(q, elem, z);
  }

  lemma StuckEnd(y: Text, t1: Text, added: Text, t2: Text, z: Text)
    ensures y + (t1 + added + t2 + z) == y + t1 + added + (t2 + z)
  {
    Assoc(t1 + added, t2, z);
    Assoc(y, t1 + added, t2 + z);
    Assoc(y, t1, added);
  }

  /** The landing is not beyond the object. */
  predicate Inside(text: Text, node: Node) {
    node.members.Some? && node.members.value != [] && Landing(text, node) < node.end
  }

  /** The landing, when it is inside the object but not clear, is in front of a line break inside a block comment. */
  lemma LandsInComment(pre: Text, head: Text, es: Elems, post: Text)
    requires es.More? && Formed(Branch(true, head, es))
    requires var text, node := pre + Show(Branch(true, head, es)) + post, NodeOf(Branch(true, head, es), |pre|);
      Inside(text, node) && !Clear(text, node)
    ensures var text, node := pre + Show(Branch(true, head, es)) + post, NodeOf(Branch(true, head, es), |pre|);
      var t := LastTrivia(LastElem(es).tail);
      && node.members.Some? && node.members.value != [] && node.trailingComma.None? == LastElem(es).tail.Plain?
      && Anchor(node) == |UpToTrivia(pre, head, es)| && !IsInline(text, node)
      && var k := CutOf(text, node);
      && k < |t| && (t[k] == LF || t[k] == CR) && Skip(t[..k]) == None && Landing(text, node) == Anchor(node) + k
  {
    hide Show, IsGap, Skip, IsInline, NodeOf, UpToTrivia, TriviaLineEnd, Formed, Clear, Anchor, Slice;
    var tree := Branch(true, head, es);
    var text, node := pre + Show(tree) + post, NodeOf(tree, |pre|);
    var p, t := UpToTrivia(pre, head, es), LastTrivia(LastElem(es).tail);
    AnchorIs(pre, head, es);
    ObjectText(pre, head, es, post);
    LastFormed(head, es);
    UpToTriviaEnds(pre, head, es);
    assert text[|p| - 1] == p[|p| - 1];
    LineEndIs(text, |p|, |p|);
    ClearUnless(text, node, |p|);
    var k := Landing(text, node) - |p|;
    LandingInTrivia(p, t, [RBRACE] + post, k);
    CutInGap(t, k);
  }

  /** What is not clear is not on one line, and not whole trivia. */
  lemma ClearUnless(text: Text, node: Node, anchor: nat)
    requires node.members.Some? && node.members.value != [] && Anchor(node) == anchor <= |text|
    requires !Clear(text, node) && anchor <= TriviaLineEnd(text, anchor, anchor)
    ensures !IsInline(text, node) && Landing(text, node) == TriviaLineEnd(text, anchor, anchor) > anchor
    ensures Skip(text[anchor..Landing(text, node)]) != Some((Landing(text, node) - anchor) as nat)
  {
    hide Anchor, TriviaLineEnd, IsInline, Skip;
    NothingSkipped();
  }

  lemma LandingInTrivia(p: Text, t: Text, z: Text, k: nat)
    requires z != [] && z[0] == RBRACE && k <= |t| && StartsBreak((p + (t + z))[|p| + k..])
    ensures k < |t| && (t[k] == LF || t[k] == CR) && (p + (t + z))[|p|..|p| + k] == t[..k]
  {
    assert (p + (t + z))[|p| + k..] == t[k..] + z;
    BreakWithin(t[k..], z);
  }

  /** An edit whose addition lands inside a comment, and does not close it, leaves the object as it was. */
  lemma ObjectStays(pre: Text, head: Text, es: Elems, post: Text, style: Style, key: Text, data: Json)
    returns (stuck: Tree)
    requires es.More? && Formed(Branch(true, head, es)) && IsStyle(style)
    requires var text, node := pre + Show(Branch(true, head, es)) + post, NodeOf(Branch(true, head, es), |pre|);
      Inside(text, node) && !Clear(text, node) && CloseFrom(AddedText(text, style, node, key, data), 0) == None
    ensures var text, node := pre + Show(Branch(true, head, es)) + post, NodeOf(Branch(true, head, es), |pre|);
      && node.members.Some? && node.members.value != []
      && InsertLast(text, style, node, key, data) == pre + Show(stuck) + post
    ensures Formed(stuck) && stuck.Branch? && stuck.braces && FieldsOf(stuck.elems, map[]) == FieldsOf(es, map[])
  {
    hide Show, IsGap, Skip, IsInline, NodeOf, UpToTrivia, Formed, Clear, Anchor, Landing, AddedText, InsertLast, CloseFrom, LastTrivia, Inside, CutOf;
    hide FieldsOf, WithTail, FormedElems;
    var tree := Branch(true, head, es);
    var text, node := pre + Show(tree) + post, NodeOf(tree, |pre|);
    var p, t := UpToTrivia(pre, head, es), LastTrivia(LastElem(es).tail);
    LandsInComment(pre, head, es, post);
    var k := CutOf(text, node);
    var added := AddedText(text, style, node, key, data);
    ObjectText(pre, head, es, post);
    LastFormed(head, es);
    assert t == t[..k] + t[k..];
    Assoc(t[..k], t[k..], [RBRACE] + post);
    SplicedParts(text, style, node, key, data, p, t[..k], t[k..] + ([RBRACE] + post));
    AddedIs(text, style, node, key, data);
    stuck := Stuck(head, es, k, added);
    StuckText(pre, head, es, post, k, added);
    CommentTakesIn(t[..k], added, t[k..]);
    NoGap();
    StuckKeeps(head, es, k, added);
  }

  lemma NoGap()
    ensures IsGap([])
  {
  }

  lemma StuckKeeps(head: Text, es: Elems, cut: nat, added: Text)
    requires es.More? && IsGap(head) && FormedElems(true, es) && IsGap(LastElem(es).tail.before)
    requires cut <= |LastTrivia(LastElem(es).tail)|
    requires IsGap([]) && IsGap(LastTrivia(LastElem(es).tail)[..cut] + added + LastTrivia(LastElem(es).tail)[cut..])
    ensures var stuck := Stuck(head, es, cut, added);
      Formed(stuck) && FieldsOf(stuck.elems, map[]) == FieldsOf(es, map[])
  {
    hide IsGap, FieldsOf, WithTail, FormedElems;
    var tail := LastElem(es).tail;
    var trivia := LastTrivia(tail)[..cut] + added + LastTrivia(tail)[cut..];
    WithTailKeeps(es, Comma(if tail.Plain? then [] else tail.before, trivia), map[]);
  }

  lemma AddedIs(text: Text, style: Style, node: Node, key: Text, data: Json)
    requires node.members.Some? && node.members.value != [] && !IsInline(text, node) && IsStyle(style)
    ensures var added := AddedText(text, style, node, key, data);
      && added != [] && added[0] != SLASH
      && added == LastLead(text, style, node)
           + WrittenMember(key, Render(data, style, LastIndent(text, style, node), IsInline(text, node)))
           + (if node.trailingComma.None? then [] else [COMMA])
  {
    hide Render, WrittenMember, LastIndent, IsInline;
  }

  // ----- Along a path -----

  /** The landing on the way of `path` is inside its object, and what is added there closes no comment. */
  predicate StaysPut(text: Text, style: Style, node: Node, path: seq<Text>, value: Json)
    decreases |path|
  {
    path == [] || node.members.None? ||
    var matches := Matching(node.members.value, path[0]);
    if matches == [] then
      node.members.value != [] ==>
        && Inside(text, node)
        && CloseFrom(AddedText(text, style, node, path[0], Wrapped(path[1..], value)), 0) == None
    else |matches| > 1 || StaysPut(text, style, matches[0].value, path[1..], value)
  }

  /** What an edit that missed does: the text still means what it meant, and that is not the merge. */
  ghost predicate Misses(pre: Text, tree: Tree, post: Text, style: Style, path: seq<Text>, value: Json, keep: bool, after: Tree)
    requires tree.Branch? && tree.braces
  {
    && UpsertIn(pre + Show(tree) + post, style, NodeOf(tree, |pre|), path, value, keep) == Some(pre + Show(after) + post)
    && Formed(after) && after.Branch? && after.braces
    && FieldsOf(after.elems, map[]) == FieldsOf(tree.elems, map[])
    && FieldsOf(tree.elems, map[]) != Merged(FieldsOf(tree.elems, map[]), path, Meaning(value), keep)
  }

  lemma {:induction false} UpsertMisses(pre: Text, tree: Tree, post: Text, style: Style, path: seq<Text>, value: Json, keep: bool)
    returns (after: Tree)
    requires Formed(tree) && tree.Branch? && tree.braces && IsStyle(style)
    requires UpsertIn(pre + Show(tree) + post, style, NodeOf(tree, |pre|), path, value, keep).Some?
    requires !ClearAlong(pre + Show(tree) + post, NodeOf(tree, |pre|), path)
    requires StaysPut(pre + Show(tree) + post, style, NodeOf(tree, |pre|), path, value)
    ensures Misses(pre, tree, post, style, path, value, keep, after)
    decreases |path|
  {
    hide Show, Formed, NodeOf, IsStyle, Misses, Clear, IndexOf, KeyOf, Inside, AddedText;
    var es, key := tree.elems, path[0];
    var node := NodeOf(tree, |pre|);
    MatchingOf(tree, |pre|, key);
    if Times(es, key) == 0 {
      after := MissesHere(pre, tree, post, style, path, value, keep);
    } else {
      FoundAt(tree, pre, key);
      var i := IndexOf(es, key);
      var inner := ElemAt(es, i).value;
      ValueInPlace(pre, tree.head, es, i, post);
      BranchFormed(tree.head, es);
      InnerFormed(es, i, |BeforeValue(pre, tree.head, es, i)|);
      var changed := UpsertMisses(
        BeforeValue(pre, tree.head, es, i), inner, AfterValue(es, i, post), style, path[1..], value, keep);
      after := Branch(true, tree.head, WithValue(es, i, changed));
      MissesInside(pre, tree, post, style, path, value, keep, i, changed);
    }
  }

  lemma MissesHere(pre: Text, tree: Tree, post: Text, style: Style, path: seq<Text>, value: Json, keep: bool)
    returns (after: Tree)
    requires Formed(tree) && tree.Branch? && tree.braces && IsStyle(style) && path != [] && Times(tree.elems, path[0]) == 0
    requires !ClearAlong(pre + Show(tree) + post, NodeOf(tree, |pre|), path)
    requires StaysPut(pre + Show(tree) + post, style, NodeOf(tree, |pre|), path, value)
    ensures Misses(pre, tree, post, style, path, value, keep, after)
  {
    hide Show, Formed, NodeOf, IsStyle, Clear, KeyOf, Inside, AddedText, InsertLast, Merged, Meaning, FieldsOf;
    MatchingOf(tree, |pre|, path[0]);
    MissingFound(tree, |pre|, path[0]);
    MissingMerged(FieldsOf(tree.elems, map[]), path, value, keep);
    after := ObjectStays(pre, tree.head, tree.elems, post, style, path[0], Wrapped(path[1..], value));
  }

  lemma MissesInside(pre: Text, tree: Tree, post: Text, style: Style, path: seq<Text>, value: Json, keep: bool, i: nat, changed: Tree)
    requires Formed(tree) && tree.Branch? && tree.braces && |path| > 1 && Times(tree.elems, path[0]) == 1
    requires i == IndexOf(tree.elems, path[0]) && i < Size(tree.elems)
    requires ElemAt(tree.elems, i).value.Branch? && ElemAt(tree.elems, i).value.braces
    requires Misses(BeforeValue(pre, tree.head, tree.elems, i), ElemAt(tree.elems, i).value, AfterValue(tree.elems, i, post),
      style, path[1..], value, keep, changed)
    ensures Misses(pre, tree, post, style, path, value, keep, Branch(true, tree.head, WithValue(tree.elems, i, changed)))
  {
    hide Show, Formed, NodeOf, KeyOf, Meaning, Matching, BeforeValue, AfterValue, IndexOf, FieldsOf;
    var es := tree.elems;
    var inner := ElemAt(es, i).value;
    FoundAt(tree, pre, path[0]);
    ValueInPlace(pre, tree.head, es, i, post);
    ValueReplaced(pre, tree.head, es, i, changed, post);
    BranchFormed(tree.head, es);
    WithValueMerged(tree.head, es, i, changed);
    FieldOnce(es, i, map[]);
    ObjectNode(inner, |BeforeValue(pre, tree.head, es, i)|);
    var before := FieldsOf(es, map[]);
    assert before[path[0] := before[path[0]]] == before;
  }

  /** What is known of a whole file before the edit that says the addition stays inside its object. */
  predicate Contained(text: Text, path: seq<Text>, value: Json) {
    match ParseSpec(text)
    case None => true
    case Some(root) => root.members.None? || StaysPut(text, StyleOf(text, root), root, path, value)
  }

  /**
   * The guard is exact: of the edits whose addition goes inside its object and closes no comment,
   * the ones that parse to the merge are the ones that land. The others leave the value as it was.
   */
  lemma CommutesExactly(text: Text, path: seq<Text>, value: Json, keep: bool)
    requires Upsert(text, path, value, keep).Some? && Contained(text, path, value)
    ensures var before, after := ParsedValue(text), ParsedValue(Upsert(text, path, value, keep).value);
      && before.Some? && before.value.Obj?
      && (Lands(text, path) <==> after == Some(Value.Obj(Merged(before.value.fields, path, Meaning(value), keep))))
      && (!Lands(text, path) ==> after == before)
  {
    hide Show, ReadDocument, UpsertIn, Merged, FieldsOf, Meaning, StyleOf, StaysPut, ClearAlong, Formed, IsStyle, IsOpening, IsEnding;
    if Lands(text, path) {
      EditCommutes(text, path, value, keep);
    } else {
      var d := ReadDocument(text).value;
      DocumentIs(text, d);
      var p, e := text[..d.start], text[d.start + |Show(d.tree)|..];
      var root := NodeOf(d.tree, |p|);
      StyleIsStyle(text, root);
      NotObject(d.tree, |p|);
      var after := UpsertMisses(p, d.tree, e, StyleOf(text, root), path, value, keep);
      DocumentReads(p, after, e);
    }
  }
}
