/** A member added after the last one of an object, as an edit of the concrete syntax. */
module Appends {
  import opened Units
  import opened Trivia
  import Strings
  import opened Scalars
  import opened Json
  import opened Syntax
  import opened Nodes
  import opened Editor
  import opened TreeEdits
  import opened Layout
  import opened Inserts

  // ----- Where the line after the last member ends -----

  /** What a line's end is found to be: the start itself, or an offset in front of a line break. */
  lemma {:induction false} LineEndIs(text: Text, from: nat, at: nat)
    requires from <= at <= |text| && (from > 0 ==> text[from - 1] != CR)
    ensures var end := TriviaLineEnd(text, from, at);
      from <= end && (end != from ==> StartsBreak(text[end..]))
    decreases |text| - at
  {
    hide CloseFrom, Find, LineStop, IndentLen;
    var here := at + IndentLen(text, at);
    StopIs(text, from, here);
    if StartsWith2(text[here..], SLASH, SLASH) {
      StopIs(text, from, here + Find(text[here..], LF));
    } else if StartsWith2(text[here..], SLASH, STAR) && CloseFrom(text, here).Some? {
      LineEndIs(text, from, CloseFrom(text, here).value + 2);
    }
  }

  lemma StopIs(text: Text, from: nat, at: nat)
    requires from <= at <= |text| && (from > 0 ==> text[from - 1] != CR)
    ensures from <= LineStop(text, from, at)
    ensures LineStop(text, from, at) != from ==> StartsBreak(text[LineStop(text, from, at)..])
  {
  }

  lemma {:induction false} ElemsEnd(braces: bool, es: Elems)
    ensures ShowElems(braces, es)[|ShowElems(braces, es)| - 1] == Closer(braces)
  {
    hide ShowElem;
    if es.More? {
      ElemsEnd(braces, es.rest);
    }
  }

  lemma TreeEnds(t: Tree)
    requires Formed(t)
    ensures Show(t) != [] && Show(t)[|Show(t)| - 1] > SPACE
  {
    hide ShowElems, FormedElems, ScalarLen, IsGap;
    if t.Branch? {
      ElemsEnd(t.braces, t.elems);
    } else if t.token[0] != QUOTE {
      ScalarIsVisible(t.token);
    }
  }

  // ----- The parts of the text -----

  /**
   * The guard of the splice: what is stepped over between the last member and the line's end is,
   * read by the parser's own rules, whole trivia. A comment that opens slash-star-slash may be
   * stepped into, and then it is not.
   */
  predicate Clear(text: Text, node: Node) {
    && node.members.Some? && node.members.value != []
    && var anchor, at := Anchor(node), Landing(text, node);
    && anchor <= at && Skip(Slice(text, anchor, at)) == Some((at - anchor) as nat)
  }

  /** The trivia between the last member, or its comma, and the closing brace. */
  function LastTrivia(tail: Tail): Text {
    match tail case Plain(before) => before case Comma(_, after) => after
  }

  /** The object's text up to that trivia. */
  function UpToTrivia(pre: Text, head: Text, es: Elems): Text
    requires es.More?
  {
    var last := LastElem(es);
    pre + [LBRACE] + head + Before(es, Size(es) - 1) + ShowLead(last.lead) + Show(last.value)
    + if last.tail.Plain? then [] else last.tail.before + [COMMA]
  }

  /** Which texts the offsets of an object's last member name. */
  lemma AnchorIs(pre: Text, head: Text, es: Elems)
    requires es.More?
    ensures var node := NodeOf(Branch(true, head, es), |pre|);
      && node.members.Some? && node.members.value != [] && |node.members.value| == Size(es)
      && Anchor(node) == |UpToTrivia(pre, head, es)|
      && node.trailingComma.Some? == LastElem(es).tail.Comma?
  {
    hide Show, ShowLead, ShowElem, MembersOf, CommaOf, Before;
    var n := Size(es) - 1;
    MemberAt(es, |pre| + 1 + |head|, n);
    CommaAt(es, |pre| + 1 + |head|);
    LastIsAt(es);
  }

  /** An object's text in its place, given the text of its members as front, last element and rest. */
  lemma InBraces(pre: Text, head: Text, front: Text, elem: Text, rest: Text, post: Text)
    ensures pre + ([LBRACE] + head + (front + elem + rest)) + post
         == pre + [LBRACE] + head + front + elem + (rest + post)
  {
    var q := pre + [LBRACE] + head;
    Assoc(pre, [LBRACE] + head, front + elem + rest);
    Assoc(pre, [LBRACE], head);
    assert pre + ([LBRACE] + head + (front + elem + rest)) == q + (front + elem + rest);
    Assoc(q, front + elem, rest);
    Assoc(q, front, elem);
    Assoc(q + front + elem, rest, post);
  }

  /** An element's text, split after its value or the comma that follows it. */
  lemma ElemInPlace(q: Text, elem: Elem, z: Text)
    ensures var last := ShowLead(elem.lead) + Show(elem.value) + ShowTail(elem.tail);
      q + last + z ==
        q + ShowLead(elem.lead) + Show(elem.value) + (if elem.tail.Plain? then [] else elem.tail.before + [COMMA])
        + (LastTrivia(elem.tail) + z)
  {
    hide ShowLead, Show;
    var l, v := ShowLead(elem.lead), Show(elem.value);
    var c := if elem.tail.Plain? then [] else elem.tail.before + [COMMA];
    var t := LastTrivia(elem.tail);
    assert ShowTail(elem.tail) == c + t;
    Assoc(q, l + v, c + t);
    Assoc(q, l, v);
    Assoc(q + l + v, c, t);
    Assoc(q + l + v + c, t, z);
  }

  lemma ObjectText(pre: Text, head: Text, es: Elems, post: Text)
    requires es.More?
    ensures pre + Show(Branch(true, head, es)) + post
         == UpToTrivia(pre, head, es) + (LastTrivia(LastElem(es).tail) + ([RBRACE] + post))
  {
    hide ShowLead, ShowTail, Before, ShowElems;
    var front, last := Before(es, Size(es) - 1), LastElem(es);
    LastIsAt(es);
    SplitAtElem(true, es, Size(es) - 1);
    LastAfter(es);
    InBraces(pre, head, front, ShowElem(last), [RBRACE], post);
    ElemInPlace(pre + [LBRACE] + head + front, last, [RBRACE] + post);
  }

  lemma {:induction false} LastAfter(es: Elems)
    requires es.More?
    ensures After(true, es, Size(es) - 1) == [RBRACE]
  {
    if es.rest.More? {
      LastAfter(es.rest);
    }
  }

  // ----- The edit -----

  /** The tail the old last element gets, and that of the added one. `cut` is where the trivia is cut. */
  function OldTail(tail: Tail, cut: nat, lead: Text): Tail
    requires cut <= |LastTrivia(tail)|
  {
    var before := if tail.Plain? then [] else tail.before;
    Comma(before, LastTrivia(tail)[..cut] + lead)
  }

  function NewTail(tail: Tail, cut: nat): Tail
    requires cut <= |LastTrivia(tail)|
  {
    var after := LastTrivia(tail)[cut..];
    if tail.Plain? then Plain(after) else Comma([], after)
  }

  lemma EditedEnd(y: Text, t1: Text, lead: Text, member: Text, comma: Text, t2: Text, post: Text)
    ensures y + (t1 + lead + (member + (comma + t2) + [RBRACE] + post))
         == y + t1 + (lead + member + comma) + (t2 + ([RBRACE] + post))
  {
    var m, w := member + comma, t2 + ([RBRACE] + post);
    Assoc(member, comma, t2);
    Assoc(m + t2, [RBRACE], post);
    Assoc(m, t2, [RBRACE] + post);
    Assoc(t1, lead, m + w);
    Assoc(lead, m, w);
    Assoc(lead, member, comma);
    Assoc(y, t1, lead + m + w);
    Assoc(y + t1, lead + m, w);
  }

  /** What an edited object's text is, in its place. */
  lemma EditedText(pre: Text, head: Text, es: Elems, post: Text, cut: nat, lead: Text, key: Text, value: Tree)
    requires es.More? && cut <= |LastTrivia(LastElem(es).tail)|
    ensures var tail := LastElem(es).tail;
      var trivia, member := LastTrivia(tail), WrittenMember(key, Show(value));
      var after := Extended(es, OldTail(tail, cut, lead), WrittenElem(key, value, NewTail(tail, cut)));
      pre + Show(Branch(true, head, after)) + post ==
        UpToTrivia(pre, head, es) + (if tail.Plain? then [COMMA] else [])
        + trivia[..cut] + (lead + member + (if tail.Plain? then [] else [COMMA]))
        + (trivia[cut..] + ([RBRACE] + post))
  {
    hide ShowLead, Before, ShowElems, Show, ShowElem, WrittenMember, WrittenElem;
    var tail := LastElem(es).tail;
    var front, last := Before(es, Size(es) - 1), LastElem(es).(tail := OldTail(tail, cut, lead));
    var added := WrittenElem(key, value, NewTail(tail, cut));
    var after := Extended(es, last.tail, added);
    ExtendedText(true, es, last.tail, added);
    BranchText(head, after);
    var end := ShowElem(added) + [RBRACE];
    InBraces(pre, head, front, ShowElem(last), end, post);
    ElemText(last);
    ElemInPlace(pre + [LBRACE] + head + front, last, end + post);
    AddedText(key, value, NewTail(tail, cut));
    var comma := if tail.Plain? then [] else [COMMA];
    EditedEnd(UpToTrivia(pre, head, es) + if tail.Plain? then [COMMA] else [],
      LastTrivia(tail)[..cut], lead, WrittenMember(key, Show(value)), comma, LastTrivia(tail)[cut..], post);
    CommaFollows(pre, head, es, last);
  }

  lemma BranchText(head: Text, es: Elems)
    ensures Show(Branch(true, head, es)) == [LBRACE] + head + ShowElems(true, es)
  {
  }

  lemma ElemText(elem: Elem)
    ensures ShowElem(elem) == ShowLead(elem.lead) + Show(elem.value) + ShowTail(elem.tail)
  {
  }

  lemma AddedText(key: Text, value: Tree, tail: Tail)
    ensures ShowElem(WrittenElem(key, value, tail)) == WrittenMember(key, Show(value)) + ShowTail(tail)
    ensures tail.Plain? ==> ShowTail(tail) == [] + tail.before
    ensures tail.Comma? && tail.before == [] ==> ShowTail(tail) == [COMMA] + tail.after
  {
    WrittenText(Strings.Quote(key), Show(value));
  }

  lemma CommaFollows(pre: Text, head: Text, es: Elems, last: Elem)
    requires es.More? && last.lead == LastElem(es).lead && last.value == LastElem(es).value && last.tail.Comma?
    requires last.tail.before == if LastElem(es).tail.Plain? then [] else LastElem(es).tail.before
    ensures pre + [LBRACE] + head + Before(es, Size(es) - 1) + ShowLead(last.lead) + Show(last.value) + (last.tail.before + [COMMA])
         == UpToTrivia(pre, head, es) + if LastElem(es).tail.Plain? then [COMMA] else []
  {
    hide Before, ShowLead, Show;
  }

  /** The splices of the edit, on a text split at the anchor and at the cut. */
  lemma SplicedLast(p: Text, t: Text, u: Text, insert: Text, comma: bool)
    ensures var added := Splice(p + (t + u), |p| + |t|, |p| + |t|, insert);
      && (!comma ==> added == p + t + insert + u)
      && (comma ==> Splice(added, |p|, |p|, [COMMA]) == p + [COMMA] + t + insert + u)
  {
    hide Splice;
    Assoc(p, t, u);
    SpliceIn(p + t, u, insert);
    var added := p + t + insert + u;
    Assoc(p, t, insert);
    Assoc(p, t + insert, u);
    SpliceIn(p, t + insert + u, [COMMA]);
    Assoc(p + [COMMA], t + insert, u);
    Assoc(p + [COMMA], t, insert);
  }

  /** A clear landing cuts the trivia after the last member into two gaps. */
  lemma ClearCuts(p: Text, t: Text, z: Text, end: nat)
    requires IsGap(t) && z != [] && z[0] == RBRACE && |p| <= end <= |p| + |t| + |z|
    requires var text := p + (t + z);
      Skip(Slice(text, |p|, end)) == Some((end - |p|) as nat) && (end != |p| ==> StartsBreak(text[end..]))
    ensures var k := end - |p|;
      k <= |t| && Skip(t[..k]) == Some(k as nat) && IsGap(t[k..])
  {
    hide IsGap, Skip, FirstPiece;
    var text, k := p + (t + z), end - |p|;
    if k > |t| {
      assert Slice(text, |p|, end) == t + z[..k - |t|];
      SkipOver(t, z[..k - |t|]);
      SkipTokenAt(z[..k - |t|]);
    } else {
      assert Slice(text, |p|, end) == t[..k];
      assert text[end..] == t[k..] + z;
      BreakWithin(t[k..], z);
      CutBeforeBreak(t, k);
    }
  }

  lemma BreakWithin(t: Text, z: Text)
    requires z != [] && z[0] == RBRACE
    ensures StartsBreak(t + z) ==> StartsBreak(t)
  {
    if t != [] {
      assert (t + z)[0] == t[0];
    }
  }

  function LastLead(text: Text, style: Style, node: Node): Text
    requires node.members.Some? && node.members.value != []
  {
    if IsInline(text, node) then [SPACE] else style.eol + LastIndent(text, style, node)
  }

  function RenderedLast(text: Text, style: Style, node: Node, data: Json): Tree
    requires node.members.Some? && node.members.value != []
  {
    RenderedTree(data, style, LastIndent(text, style, node), IsInline(text, node))
  }

  lemma LastIndentIsIndent(text: Text, style: Style, node: Node)
    requires node.members.Some? && node.members.value != [] && IsStyle(style)
    ensures IsIndent(LastIndent(text, style, node))
  {
    hide LineIndent, StartsLine;
    var members := node.members.value;
    LineIndentIsIndent(text, members[|members| - 1].keyStart);
    LineIndentIsIndent(text, node.start);
  }

  /** How much of the trivia after the last member stays in front of the added one. */
  function CutOf(text: Text, node: Node): nat
    requires node.members.Some? && node.members.value != []
  {
    if Landing(text, node) >= Anchor(node) then Landing(text, node) - Anchor(node) else 0
  }

  /** Both halves of the cut trivia, the first with the added member's lead, are gaps. */
  lemma CutIsGaps(pre: Text, head: Text, es: Elems, post: Text, style: Style)
    requires es.More? && Formed(Branch(true, head, es)) && IsStyle(style)
    requires Clear(pre + Show(Branch(true, head, es)) + post, NodeOf(Branch(true, head, es), |pre|))
    ensures var text := pre + Show(Branch(true, head, es)) + post;
      var node, t := NodeOf(Branch(true, head, es), |pre|), LastTrivia(LastElem(es).tail);
      && node.members.Some? && node.members.value != []
      && CutOf(text, node) <= |t|
      && IsGap(t[..CutOf(text, node)] + LastLead(text, style, node)) && IsGap(t[CutOf(text, node)..])
  {
    hide Show, IsGap, Skip, LastIndent, IsInline, NodeOf, Slice, UpToTrivia, TriviaLineEnd, Formed;
    var tree := Branch(true, head, es);
    var text, node := pre + Show(tree) + post, NodeOf(tree, |pre|);
    var t := LastTrivia(LastElem(es).tail);
    AnchorIs(pre, head, es);
    LastFormed(head, es);
    ObjectText(pre, head, es, post);
    UpToTriviaEnds(pre, head, es);
    var p := UpToTrivia(pre, head, es);
    LineEndIs(text, |p|, |p|);
    ClearCuts(p, t, [RBRACE] + post, Landing(text, node));
    var k := CutOf(text, node);
    LastIndentIsIndent(text, style, node);
    if IsInline(text, node) {
      assert t[..0] + [SPACE] == [SPACE];
      BlanksAreGap([SPACE]);
    } else {
      LineBreakCloses(t[..k], style.eol + LastIndent(text, style, node));
    }
  }

  lemma LastFormed(head: Text, es: Elems)
    requires es.More? && Formed(Branch(true, head, es))
    ensures IsGap(head) && FormedElems(true, es) && FormedElem(true, LastElem(es))
    ensures IsGap(LastTrivia(LastElem(es).tail)) && IsGap(LastElem(es).tail.before) && Formed(LastElem(es).value)
  {
    hide IsGap, FormedLead;
    LastIsAt(es);
    ElemAtFormed(true, es, Size(es) - 1);
  }

  /** The text before the trivia ends with a value or a comma, so not with a carriage return. */
  lemma UpToTriviaEnds(pre: Text, head: Text, es: Elems)
    requires es.More? && Formed(LastElem(es).value)
    ensures var p := UpToTrivia(pre, head, es); p != [] && p[|p| - 1] > SPACE
  {
    hide Show, Formed, Before, ShowLead;
    TreeEnds(LastElem(es).value);
  }

  /** The object a member is added to, after its last member. */
  function LastInserted(text: Text, style: Style, node: Node, head: Text, es: Elems, key: Text, data: Json): Tree
    requires es.More? && node.members.Some? && node.members.value != []
    requires CutOf(text, node) <= |LastTrivia(LastElem(es).tail)|
  {
    var cut := CutOf(text, node);
    Branch(true, head, Extended(es,
      OldTail(LastElem(es).tail, cut, LastLead(text, style, node)),
      WrittenElem(key, RenderedLast(text, style, node, data), NewTail(LastElem(es).tail, cut))))
  }

  /** Where the landing is clear, a member is added after the last one and the trivia is cut in two around it. */
  lemma LastIsInserted(pre: Text, head: Text, es: Elems, post: Text, style: Style, key: Text, data: Json)
    requires es.More? && Formed(Branch(true, head, es)) && IsStyle(style)
    requires Clear(pre + Show(Branch(true, head, es)) + post, NodeOf(Branch(true, head, es), |pre|))
    ensures var tree := Branch(true, head, es);
      var text, node := pre + Show(tree) + post, NodeOf(tree, |pre|);
      && CutOf(text, node) <= |LastTrivia(LastElem(es).tail)|
      && var after := LastInserted(text, style, node, head, es, key, data);
      && InsertLast(text, style, node, key, data) == pre + Show(after) + post
      && Formed(after)
      && ValueOf(RenderedLast(text, style, node, data)) == Meaning(data)
  {
    hide Show, IsGap, Skip, LastIndent, IsInline, NodeOf, Slice, UpToTrivia, Formed, FormedElems, FormedElem, Clear, Landing;
    hide ValueOf, Meaning, RenderedTree, Render, Splice, WrittenMember, Extended, WrittenElem;
    var tree := Branch(true, head, es);
    var text, node := pre + Show(tree) + post, NodeOf(tree, |pre|);
    var tail := LastElem(es).tail;
    AnchorIs(pre, head, es);
    CutIsGaps(pre, head, es, post, style);
    LastFormed(head, es);
    ObjectText(pre, head, es, post);
    LastIndentIsIndent(text, style, node);
    RenderedIsTree(data, style, LastIndent(text, style, node), IsInline(text, node));
    var cut, lead, value := CutOf(text, node), LastLead(text, style, node), RenderedLast(text, style, node, data);
    EditedText(pre, head, es, post, cut, lead, key, value);
    LastFormedAfter(head, es, cut, lead, key, value);
    LastSpliced(pre, head, es, post, style, key, data);
  }

  lemma LastFormedAfter(head: Text, es: Elems, cut: nat, lead: Text, key: Text, value: Tree)
    requires es.More? && IsGap(head) && FormedElems(true, es) && Formed(value) && IsGap(LastElem(es).tail.before)
    requires cut <= |LastTrivia(LastElem(es).tail)|
    requires IsGap(LastTrivia(LastElem(es).tail)[..cut] + lead) && IsGap(LastTrivia(LastElem(es).tail)[cut..])
    ensures Formed(Branch(true, head,
      Extended(es, OldTail(LastElem(es).tail, cut, lead), WrittenElem(key, value, NewTail(LastElem(es).tail, cut)))))
  {
    hide IsGap, FormedElem, WrittenElem, FormedElems, Extended;
    var tail := LastElem(es).tail;
    assert IsGap([]) by { BlanksAreGap([]); }
    WrittenIsElem(key, value, NewTail(tail, cut));
    ExtendedFormed(es, OldTail(tail, cut, lead), WrittenElem(key, value, NewTail(tail, cut)));
  }

  /** The two splices, in terms of the parts of the text. */
  lemma LastSpliced(pre: Text, head: Text, es: Elems, post: Text, style: Style, key: Text, data: Json)
    requires es.More? && Formed(Branch(true, head, es)) && IsStyle(style)
    requires Clear(pre + Show(Branch(true, head, es)) + post, NodeOf(Branch(true, head, es), |pre|))
    ensures var tree, tail := Branch(true, head, es), LastElem(es).tail;
      var text, node := pre + Show(tree) + post, NodeOf(tree, |pre|);
      && node.members.Some? && node.members.value != []
      && CutOf(text, node) <= |LastTrivia(tail)|
      && var cut := CutOf(text, node);
      var member := WrittenMember(key, Render(data, style, LastIndent(text, style, node), IsInline(text, node)));
      InsertLast(text, style, node, key, data) ==
        UpToTrivia(pre, head, es) + (if tail.Plain? then [COMMA] else [])
        + LastTrivia(tail)[..cut] + (LastLead(text, style, node) + member + (if tail.Plain? then [] else [COMMA]))
        + (LastTrivia(tail)[cut..] + ([RBRACE] + post))
  {
    hide Show, IsGap, Skip, LastIndent, IsInline, NodeOf, Slice, UpToTrivia, Formed, FormedElems, FormedElem, Landing;
    hide Render, Splice, WrittenMember, InsertLast, LastLead, Clear, CutOf, LastTrivia, Anchor;
    var tree := Branch(true, head, es);
    var text, node := pre + Show(tree) + post, NodeOf(tree, |pre|);
    AnchorIs(pre, head, es);
    var t, cut := LastTrivia(LastElem(es).tail), CutOf(text, node);
    CutLands(text, node);
    CutIsGaps(pre, head, es, post, style);
    ObjectText(pre, head, es, post);
    var p, u := UpToTrivia(pre, head, es), t[cut..] + ([RBRACE] + post);
    assert t == t[..cut] + t[cut..];
    Assoc(t[..cut], t[cut..], [RBRACE] + post);
    SplicedParts(text, style, node, key, data, p, t[..cut], u);
  }

  lemma SplicedParts(text: Text, style: Style, node: Node, key: Text, data: Json, p: Text, t: Text, u: Text)
    requires text == p + (t + u) && node.members.Some? && node.members.value != []
    requires Anchor(node) == |p| && Landing(text, node) == |p| + |t|
    ensures var member := WrittenMember(key, Render(data, style, LastIndent(text, style, node), IsInline(text, node)));
      var plain := node.trailingComma.None?;
      InsertLast(text, style, node, key, data) ==
        p + (if plain then [COMMA] else []) + t + (LastLead(text, style, node) + member + (if plain then [] else [COMMA])) + u
  {
    hide Render, Splice, WrittenMember, InsertLast, LastLead, IsInline, LastIndent, Landing, Anchor;
    var insert := LastLead(text, style, node)
      + WrittenMember(key, Render(data, style, LastIndent(text, style, node), IsInline(text, node)))
      + if node.trailingComma.None? then [] else [COMMA];
    InsertLastIs(text, style, node, key, data, insert, |p| + |t|);
    SplicedLast(p, t, u, insert, node.trailingComma.None?);
    NothingAdded(p);
  }

  lemma NothingAdded(p: Text)
    ensures p + [] == p
  {
  }

  lemma CutLands(text: Text, node: Node)
    requires Clear(text, node)
    ensures Landing(text, node) == Anchor(node) + CutOf(text, node)
  {
    hide Skip, Slice, Anchor, Landing;
  }

  lemma InsertLastIs(text: Text, style: Style, node: Node, key: Text, data: Json, insert: Text, at: nat)
    requires node.members.Some? && node.members.value != [] && at == Landing(text, node)
    requires insert == LastLead(text, style, node)
      + WrittenMember(key, Render(data, style, LastIndent(text, style, node), IsInline(text, node)))
      + if node.trailingComma.None? then [] else [COMMA]
    ensures InsertLast(text, style, node, key, data) ==
      var added := Splice(text, at, at, insert);
      if node.trailingComma.None? then Splice(added, Anchor(node), Anchor(node), [COMMA]) else added
  {
    hide Render, Splice, WrittenMember, LastIndent, IsInline, Landing;
  }
}
