/** A member put beyond its object: the object is closed before it, and stays without the member. */
module Overshoots {
  import opened Units
  import opened Trivia
  import opened Json
  import opened Values
  import opened Syntax
  import opened Nodes
  import opened Editor
  import opened TreeEdits
  import opened Layout
  import opened Appends
  import opened Commutes
  import opened Documents
  import opened JsonEdits
  import opened Landings
  import opened Strays
  import opened Wedges
  import opened Settled

  // ----- The object that is closed already -----

  /** The landing is behind the closing brace. */
  predicate Past(text: Text, node: Node) {
    node.members.Some? && node.members.value != [] && node.end <= Landing(text, node)
  }

  /** What an edit adds, as it is put into the text. */
  function WedgeOf(text: Text, style: Style, node: Node, key: Text, data: Json): Wedge
    requires node.members.Some? && node.members.value != []
  {
    Wedge(LastLead(text, style, node), key, RenderedLast(text, style, node, data), node.trailingComma.Some?)
  }

  lemma WedgeIs(text: Text, style: Style, node: Node, key: Text, data: Json)
    requires IsStyle(style) && Past(text, node) && Anchor(node) < node.end
    requires CloseFrom(Strays.AddedText(text, style, node, key, data), 0) == None
    ensures var x := WedgeOf(text, style, node, key, data);
      && IsWedge(x) && ValueOf(x.value) == Meaning(data)
      && TextOf(x) == Strays.AddedText(text, style, node, key, data)
  {
    hide LastIndent, IsInline, RenderedTree, Render, Show, Formed, ValueOf, Meaning, WrittenMember, CloseFrom, Anchor, TriviaLineEnd;
    LastIndentIsIndent(text, style, node);
    var indent, inline := LastIndent(text, style, node), IsInline(text, node);
    RenderedIsTree(data, style, indent, inline);
    Assoc(LastLead(text, style, node), WrittenMember(key, Render(data, style, indent, inline)),
      if node.trailingComma.None? then [] else [COMMA]);
    assert !inline;
    EolBreaks(style.eol, indent);
  }

  lemma EolBreaks(eol: Text, indent: Text)
    requires IsEol(eol) && IsIndent(indent)
    ensures StartsBreak(eol + indent) && IsBlanks(eol + indent)
  {
  }

  /** How far behind the closing brace the landing is: in front of a line break. */
  lemma PastAt(pre: Text, head: Text, es: Elems, post: Text) returns (at: nat)
    requires es.More? && Formed(Branch(true, head, es))
    requires Past(pre + Show(Branch(true, head, es)) + post, NodeOf(Branch(true, head, es), |pre|))
    ensures var text, node := pre + Show(Branch(true, head, es)) + post, NodeOf(Branch(true, head, es), |pre|);
      var p, t := UpToTrivia(pre, head, es), LastTrivia(LastElem(es).tail);
      && node.members.Some? && node.members.value != []
      && text == p + (t + ([RBRACE] + post)) && Anchor(node) == |p| < node.end
      && node.trailingComma.Some? == LastElem(es).tail.Comma?
      && Breaks(post, at) && Landing(text, node) == |p| + |t| + 1 + at
  {
    hide Show, IsInline, NodeOf, UpToTrivia, Formed, Anchor, Landing, LastTrivia, StartsBreak;
    var text, node := pre + Show(Branch(true, head, es)) + post, NodeOf(Branch(true, head, es), |pre|);
    var p, t := UpToTrivia(pre, head, es), LastTrivia(LastElem(es).tail);
    AnchorIs(pre, head, es);
    ObjectText(pre, head, es, post);
    LastFormed(head, es);
    UpToTriviaEnds(pre, head, es);
    assert |text| == |p| + |t| + 1 + |post|;
    assert node.end == |pre| + |Show(Branch(true, head, es))|;
    LandsAtBreak(text, node);
    at := Landing(text, node) - (|p| + |t| + 1);
    assert text[Landing(text, node)..] == post[at..];
    BreakIsThere(post, at);
  }

  lemma BreakIsThere(s: Text, at: nat)
    requires at <= |s| && StartsBreak(s[at..])
    ensures Breaks(s, at)
  {
  }

  /** The object's text, perhaps with a comma after its last member, is followed by text that the member was put into. */
  lemma ObjectCloses(pre: Text, head: Text, es: Elems, post: Text, style: Style, key: Text, data: Json)
    returns (closed: Tree, at: nat)
    requires es.More? && Formed(Branch(true, head, es)) && IsStyle(style)
    requires var text, node := pre + Show(Branch(true, head, es)) + post, NodeOf(Branch(true, head, es), |pre|);
      Past(text, node) && CloseFrom(Strays.AddedText(text, style, node, key, data), 0) == None
    ensures Formed(closed) && closed.Branch? && closed.braces && FieldsOf(closed.elems, map[]) == FieldsOf(es, map[])
    ensures var text, node := pre + Show(Branch(true, head, es)) + post, NodeOf(Branch(true, head, es), |pre|);
      && node.members.Some? && node.members.value != []
      && var x := WedgeOf(text, style, node, key, data);
      && IsWedge(x) && ValueOf(x.value) == Meaning(data) && Breaks(post, at)
      && InsertLast(text, style, node, key, data) == pre + Show(closed) + Put(post, at, TextOf(x))
  {
    hide Show, IsGap, IsInline, NodeOf, UpToTrivia, Formed, Anchor, Landing, InsertLast, LastTrivia, StartsBreak, Wedges.TextOf, IsWedge;
    hide FieldsOf, FormedElems, WedgeOf, Strays.AddedText, CloseFrom, ValueOf, Meaning, Stuck, Past, FormedElem, LastElem;
    var text, node := pre + Show(Branch(true, head, es)) + post, NodeOf(Branch(true, head, es), |pre|);
    var p, t := UpToTrivia(pre, head, es), LastTrivia(LastElem(es).tail);
    at := PastAt(pre, head, es, post);
    WedgeIs(text, style, node, key, data);
    LastFormed(head, es);
    closed := Stuck(head, es, 0, []);
    StuckIs(head, es, 0, []);
    assert IsGap(t[..0] + [] + t[0..]) by { assert t[..0] + [] + t[0..] == t; }
    NoGap();
    StuckKeeps(head, es, 0, []);
    AddedPast(text, style, node, key, data, p, t, post, at);
    StuckText(pre, head, es, Put(post, at, TextOf(WedgeOf(text, style, node, key, data))), 0, []);
    var comma := if LastElem(es).tail.Plain? then [COMMA] else [];
    assert comma == if node.trailingComma.None? then [COMMA] else [];
  }

  lemma AddedPast(text: Text, style: Style, node: Node, key: Text, data: Json, p: Text, t: Text, post: Text, at: nat)
    requires text == p + (t + ([RBRACE] + post)) && node.members.Some? && node.members.value != [] && at <= |post|
    requires Anchor(node) == |p| && Landing(text, node) == |p| + |t| + 1 + at
    ensures InsertLast(text, style, node, key, data) ==
      p + (if node.trailingComma.None? then [COMMA] else []) + t[..0] + []
      + (t[0..] + ([RBRACE] + Put(post, at, Strays.AddedText(text, style, node, key, data))))
  {
    hide Render, WrittenMember, InsertLast, LastLead, IsInline, LastIndent, Landing, Anchor, Strays.AddedText;
    var before, after, x := post[..at], post[at..], Strays.AddedText(text, style, node, key, data);
    assert post == before + after;
    SplitPast(p, t, before, after);
    AddedHere(text, style, node, key, data, p, t + [RBRACE] + before, after);
    JoinPast(p + (if node.trailingComma.None? then [COMMA] else []), t, before, x, after);
  }

  lemma StuckIs(head: Text, es: Elems, cut: nat, added: Text)
    requires es.More? && cut <= |LastTrivia(LastElem(es).tail)|
    ensures Stuck(head, es, cut, added).Branch? && Stuck(head, es, cut, added).braces
  {
  }

  lemma AddedHere(text: Text, style: Style, node: Node, key: Text, data: Json, p: Text, t: Text, u: Text)
    requires text == p + (t + u) && node.members.Some? && node.members.value != []
    requires Anchor(node) == |p| && Landing(text, node) == |p| + |t|
    ensures InsertLast(text, style, node, key, data) ==
      p + (if node.trailingComma.None? then [COMMA] else []) + t + Strays.AddedText(text, style, node, key, data) + u
  {
    hide Render, WrittenMember, InsertLast, LastLead, IsInline, LastIndent, Landing, Anchor;
    SplicedParts(text, style, node, key, data, p, t, u);
  }

  lemma LandsAtBreak(text: Text, node: Node)
    requires Past(text, node) && 0 < Anchor(node) < node.end && Anchor(node) <= |text| && text[Anchor(node) - 1] != CR
    ensures Landing(text, node) <= |text| && StartsBreak(text[Landing(text, node)..])
  {
    hide Anchor, IsInline, TriviaLineEnd, StartsBreak;
    LineEndIs(text, Anchor(node), Anchor(node));
  }

  lemma SplitPast(p: Text, t: Text, before: Text, after: Text)
    ensures p + (t + ([RBRACE] + (before + after))) == p + ((t + [RBRACE] + before) + after)
  {
  }

  lemma JoinPast(y: Text, t: Text, before: Text, x: Text, after: Text)
    ensures y + (t + [RBRACE] + before) + x + after == y + t[..0] + [] + (t[0..] + ([RBRACE] + (before + x + after)))
  {
  }

  /** An object is read back whatever follows its closing brace. */
  lemma ObjectReads(t: Tree, rest: Text)
    requires Formed(t) && t.Branch?
    ensures ReadTree(Show(t) + rest) == Some(Read(t, |Show(t)|))
  {
    hide FormedElems, ShowElems, ReadElems, IsGap, ReadTree;
    var shown := ShowElems(t.braces, t.elems);
    ElemsRead(t.braces, t.elems, rest);
    ElemsBegin(t.braces, t.elems);
    assert (shown + rest)[0] == shown[0];
    BranchReads(t.braces, t.head, t.elems, shown + rest, |shown|);
    assert Show(t) + rest == [Opener(t.braces)] + t.head + (shown + rest);
  }

  // ----- Reading up to a value -----

  /** What is read of a member list whose text is known up to the value of member `i`. */
  lemma {:induction false} ElemsInto(es: Elems, i: nat, s: Text)
    requires FormedElems(true, es) && i < Size(es) && s != [] && s[0] == LBRACE
    ensures var r := ReadElems(true, Before(es, i) + ShowLead(ElemAt(es, i).lead) + s);
      r.Some? ==>
        && ReadTree(s).Some? && i < Size(r.value.it)
        && ElemAt(r.value.it, i).lead == ElemAt(es, i).lead && ElemAt(r.value.it, i).value == ReadTree(s).value.it
    decreases i
  {
    hide ReadElem, FormedElem, ShowElem, ReadTree, ShowLead, ReadLead;
    var rest := Before(es, i) + ShowLead(ElemAt(es, i).lead) + s;
    ElemAtFormed(true, es, i);
    if ReadElems(true, rest).None? {
    } else if i == 0 {
      assert rest == ShowLead(es.elem.lead) + s;
      FirstInto(es.elem, s);
      ReadElemsStep(rest);
    } else {
      var after := Before(es.rest, i - 1) + ShowLead(ElemAt(es.rest, i - 1).lead) + s;
      BeforeFirst(es, i, s);
      NextBegins(es.rest, i - 1, s);
      ElemAtFormed(true, es, 0);
      ElemReads(true, es.elem, after);
      ElemBegins(es.elem);
      ReadElemsStep(rest);
      ElemsInto(es.rest, i - 1, s);
      assert rest[|ShowElem(es.elem)|..] == after;
    }
  }

  lemma FirstInto(elem: Elem, s: Text)
    requires FormedElem(true, elem) && s != [] && s[0] == LBRACE
    ensures ShowLead(elem.lead) != [] && ShowLead(elem.lead)[0] == QUOTE
    ensures var r := ReadElem(true, ShowLead(elem.lead) + s);
      r.Some? ==> ReadTree(s).Some? && r.value.it.lead == elem.lead && r.value.it.value == ReadTree(s).value.it
  {
    hide ReadTree, ShowLead, ReadLead, ReadTail, Formed, FormedTail, FormedLead;
    LeadBegins(elem.lead);
    TokenStarts(s);
    LeadReads(true, elem.lead, s);
    assert (ShowLead(elem.lead) + s)[|ShowLead(elem.lead)|..] == s;
  }

  lemma BeforeFirst(es: Elems, i: nat, s: Text)
    requires 0 < i < Size(es)
    ensures Before(es, i) + ShowLead(ElemAt(es, i).lead) + s
         == ShowElem(es.elem) + (Before(es.rest, i - 1) + ShowLead(ElemAt(es.rest, i - 1).lead) + s)
  {
    hide ShowElem, ShowLead;
    var a, b, l := ShowElem(es.elem), Before(es.rest, i - 1), ShowLead(ElemAt(es, i).lead);
    assert Before(es, i) == a + b;
    assert a + b + l + s == a + (b + l + s);
  }

  lemma LeadBegins(lead: Lead)
    requires FormedLead(true, lead)
    ensures ShowLead(lead) != [] && ShowLead(lead)[0] == QUOTE
  {
    hide IsGap;
    StringBegins(lead.key);
  }

  lemma ElemBegins(elem: Elem)
    requires FormedElem(true, elem)
    ensures ShowElem(elem) != [] && ShowElem(elem)[0] == QUOTE
  {
    hide Formed, FormedTail, Show, ShowTail, ShowLead, FormedLead;
    LeadBegins(elem.lead);
  }

  lemma NextBegins(es: Elems, i: nat, s: Text)
    requires FormedElems(true, es) && i < Size(es)
    ensures var rest := Before(es, i) + ShowLead(ElemAt(es, i).lead) + s; rest != [] && rest[0] == QUOTE
  {
    hide ShowElem, ShowLead, FormedElem;
    ElemAtFormed(true, es, i);
    if i == 0 {
      FormedParts(ElemAt(es, 0));
      LeadBegins(ElemAt(es, 0).lead);
    } else {
      ElemAtFormed(true, es, 0);
      ElemBegins(es.elem);
    }
  }

  lemma FormedParts(elem: Elem)
    requires FormedElem(true, elem)
    ensures FormedLead(true, elem.lead)
  {
  }

  lemma ReadElemsStep(s: Text)
    requires s != [] && s[0] == QUOTE && ReadElems(true, s).Some?
    ensures var first := ReadElem(true, s);
      && first.Some? && ReadElems(true, s[first.value.len..]).Some?
      && ReadElems(true, s).value.it == More(first.value.it, ReadElems(true, s[first.value.len..]).value.it)
  {
    hide ReadElem;
  }

  /** What is read of an object whose text is known up to the value of member `i`. */
  lemma TreeInto(head: Text, es: Elems, i: nat, s: Text)
    requires Formed(Branch(true, head, es)) && i < Size(es) && s != [] && s[0] == LBRACE
    ensures var r := ReadTree([LBRACE] + head + (Before(es, i) + ShowLead(ElemAt(es, i).lead) + s));
      r.Some? ==>
        && r.value.it.Branch? && r.value.it.braces
        && ReadTree(s).Some? && i < Size(r.value.it.elems)
        && ElemAt(r.value.it.elems, i).lead == ElemAt(es, i).lead
        && ElemAt(r.value.it.elems, i).value == ReadTree(s).value.it
  {
    hide ReadElems, Skip, ReadTree, ReadLeaf, ShowElem, ShowLead, IsGap, FormedElems, Before;
    var rest := Before(es, i) + ShowLead(ElemAt(es, i).lead) + s;
    var text := [LBRACE] + head + rest;
    BranchFormed(head, es);
    NextBegins(es, i, s);
    ElemsInto(es, i, s);
    assert text[1..] == head + rest;
    SkipOver(head, rest);
    SkipTokenAt(rest);
    assert (head + rest)[|head|..] == rest;
    if ReadTree(text).Some? {
      ReadBranch(text, |head|);
    }
  }

  lemma ReadBranch(s: Text, h: nat)
    requires s != [] && s[0] == LBRACE && Skip(s[1..]) == Some(h) && ReadTree(s).Some?
    ensures var r := ReadElems(true, s[1..][h..]);
      r.Some? && ReadTree(s).value.it == Branch(true, s[1..][..h], r.value.it)
  {
    hide ReadElems, Skip, ReadLeaf;
  }

  // ----- Along a path -----

  /** The landing on the way of `path` is behind its object. */
  predicate PastAlong(text: Text, node: Node, path: seq<Text>)
    decreases |path|
  {
    path != [] && node.members.Some? &&
    var matches := Matching(node.members.value, path[0]);
    if matches == [] then Past(text, node)
    else |matches| == 1 && PastAlong(text, matches[0].value, path[1..])
  }

  /** What an edit adds after a last member holds no end of a comment. */
  predicate ClosesNothing(text: Text, style: Style, node: Node, path: seq<Text>, value: Json)
    decreases |path|
  {
    path == [] || node.members.None? ||
    var matches := Matching(node.members.value, path[0]);
    if matches == [] then
      node.members.value != [] ==> CloseFrom(Strays.AddedText(text, style, node, path[0], Wrapped(path[1..], value)), 0) == None
    else |matches| > 1 || ClosesNothing(text, style, matches[0].value, path[1..], value)
  }

  /**
   * What became of the object: it is not read, its text is all there and the member is in it or
   * gone, or its text is there and the member is put in further on.
   */
  datatype Fate = Unread | Whole(tree: Tree) | Ahead(tree: Tree, at: nat)

  predicate IsFate(fate: Fate, pre: Text, post: Text, next: Text, x: Wedge) {
    && pre <= next && |pre| < |next| && next[|pre|] == LBRACE
    && if fate.Unread? then ReadTree(next[|pre|..]).None?
       else
         && Formed(fate.tree) && fate.tree.Branch? && fate.tree.braces
         && if fate.Whole? then next == pre + Show(fate.tree) + post
            else Breaks(post, fate.at) && next == pre + Show(fate.tree) + Put(post, fate.at, TextOf(x))
  }

  predicate Differs(fate: Fate, merged: Fields) {
    fate.Unread? || (fate.tree.Branch? && FieldsOf(fate.tree.elems, map[]) != merged)
  }

  /** One value is inside another, at the end of some path. */
  ghost predicate Within(outer: Value, inner: Value) {
    exists path: seq<Text> :: path != [] && Lookup(outer, path) == Some(inner)
  }

  lemma {:induction false} LookupOn(value: Value, path: seq<Text>, more: seq<Text>)
    requires Lookup(value, path).Some?
    ensures Lookup(value, path + more) == Lookup(Lookup(value, path).value, more)
    decreases |path|
  {
    if path == [] {
      assert path + more == more;
    } else {
      assert (path + more)[1..] == path[1..] + more;
      LookupOn(value.fields[path[0]], path[1..], more);
    }
  }

  lemma JustOne(key: Text)
    ensures var path: seq<Text> := [key]; path[1..] == []
  {
  }

  /** No value is inside itself. */
  lemma {:induction false} NeverWithin(value: Value, path: seq<Text>)
    requires path != []
    ensures Lookup(value, path) != Some(value)
    decreases value
  {
    if Lookup(value, path) == Some(value) {
      var next := value.fields[path[0]];
      LookupOn(next, path[1..], [path[0]]);
      JustOne(path[0]);
      NeverWithin(next, path[1..] + [path[0]]);
    }
  }

  lemma WithinDiffers(outer: Value, inner: Value)
    requires Within(outer, inner)
    ensures outer != inner
  {
    var path :| path != [] && Lookup(outer, path) == Some(inner);
    NeverWithin(outer, path);
  }

  lemma WithinField(fields: Fields, key: Text, inner: Value)
    requires key in fields && (fields[key] == inner || Within(fields[key], inner))
    ensures Within(Value.Obj(fields), inner)
  {
    var outer := Value.Obj(fields);
    if fields[key] == inner {
      JustOne(key);
      assert Lookup(outer, [key]) == Some(inner);
    } else {
      var path :| path != [] && Lookup(fields[key], path) == Some(inner);
      assert ([key] + path)[1..] == path;
      assert Lookup(outer, [key] + path) == Some(inner);
    }
  }

  /** The object the edit added to, with the member put behind it. */
  lemma PastHere(pre: Text, tree: Tree, post: Text, style: Style, path: seq<Text>, value: Json, keep: bool)
    returns (fate: Fate, x: Wedge)
    requires Formed(tree) && tree.Branch? && tree.braces && IsStyle(style) && path != [] && Times(tree.elems, path[0]) == 0
    requires Past(pre + Show(tree) + post, NodeOf(tree, |pre|))
    requires ClosesNothing(pre + Show(tree) + post, style, NodeOf(tree, |pre|), path, value)
    ensures NodeOf(tree, |pre|).members.Some?
    ensures var next := UpsertIn(pre + Show(tree) + post, style, NodeOf(tree, |pre|), path, value, keep);
      next.Some? && IsFate(fate, pre, post, next.value, x)
    ensures var merged := Merged(FieldsOf(tree.elems, map[]), path, Meaning(value), keep);
      IsWedge(x) && Differs(fate, merged) && Within(Value.Obj(merged), ValueOf(x.value))
  {
    hide Show, Formed, NodeOf, IsStyle, InsertLast, Merged, Meaning, FieldsOf, Landing, Matching, ReadTree, IsWedge, Wedges.TextOf, CloseFrom, Strays.AddedText, WedgeOf, Within, ValueOf;
    MatchingOf(tree, |pre|, path[0]);
    MissingFound(tree, |pre|, path[0]);
    MissingMerged(FieldsOf(tree.elems, map[]), path, value, keep);
    var data := Wrapped(path[1..], value);
    var closed, at := ObjectCloses(pre, tree.head, tree.elems, post, style, path[0], data);
    x := WedgeOf(pre + Show(tree) + post, style, NodeOf(tree, |pre|), path[0], data);
    fate := Ahead(closed, at);
    OpensObject(closed);
    WithinField(Merged(FieldsOf(tree.elems, map[]), path, Meaning(value), keep), path[0], Meaning(data));
  }

  lemma OpensObject(t: Tree)
    requires t.Branch? && t.braces
    ensures Show(t) != [] && Show(t)[0] == LBRACE
  {
  }

  /** The member's text at the start of what follows an object's opening brace. */
  lemma InFront(pre: Text, head: Text, es: Elems, i: nat, s: Text)
    requires i < Size(es)
    ensures BeforeValue(pre, head, es, i) + s
         == pre + ([LBRACE] + head + (Before(es, i) + ShowLead(ElemAt(es, i).lead) + s))
  {
    hide Before, ShowLead;
    var b, l := Before(es, i), ShowLead(ElemAt(es, i).lead);
    assert pre + [LBRACE] + head + b + l + s == pre + ([LBRACE] + head + (b + l + s));
  }

  /** An object is not read when the object in it is not. */
  lemma UnreadOutside(pre: Text, tree: Tree, post: Text, next: Text, i: nat, x: Wedge)
    requires Formed(tree) && tree.Branch? && tree.braces && i < Size(tree.elems)
    requires IsFate(Unread, BeforeValue(pre, tree.head, tree.elems, i), AfterValue(tree.elems, i, post), next, x)
    ensures IsFate(Unread, pre, post, next, x)
  {
    hide Show, Formed, ReadTree, BeforeValue, AfterValue, Before, ShowLead;
    var es, b := tree.elems, BeforeValue(pre, tree.head, tree.elems, i);
    var s := next[|b|..];
    assert next == b + s && s[0] == LBRACE;
    InFront(pre, tree.head, es, i, s);
    var rest := [LBRACE] + tree.head + (Before(es, i) + ShowLead(ElemAt(es, i).lead) + s);
    assert next[|pre|..] == rest;
    TreeInto(tree.head, es, i, s);
  }

  /** The rest of an object's text behind the value of member `i`. */
  function Remainder(es: Elems, i: nat): Text
    requires i < Size(es)
  {
    ShowTail(ElemAt(es, i).tail) + After(true, es, i)
  }

  lemma RemainderIs(es: Elems, i: nat, post: Text)
    requires i < Size(es)
    ensures AfterValue(es, i, post) == Remainder(es, i) + post
    ensures ShowElems(true, es) == Before(es, i) + ShowLead(ElemAt(es, i).lead) + Show(ElemAt(es, i).value) + Remainder(es, i)
  {
    hide Show, ShowLead, ShowTail, Before, After, ShowElem;
    var elem, after := ElemAt(es, i), After(true, es, i);
    Assoc(ShowTail(elem.tail), after, post);
    SplitAtElem(true, es, i);
    ElemText(elem);
    var b, l, v, t := Before(es, i), ShowLead(elem.lead), Show(elem.value), ShowTail(elem.tail);
    Assoc(b, l + v + t, after);
    Assoc(l + v, t, after);
    Assoc(b, l + v, t + after);
    Assoc(b, l, v);
  }

  /** What becomes of an object whose member `i` is an object the edit changed. */
  lemma FateOutside(pre: Text, tree: Tree, post: Text, next: Text, path: seq<Text>, value: Json, keep: bool, i: nat, inner: Fate, x: Wedge)
    returns (fate: Fate)
    requires Formed(tree) && tree.Branch? && tree.braces && |path| > 1 && Times(tree.elems, path[0]) == 1 && IsWedge(x)
    requires i == IndexOf(tree.elems, path[0]) && i < Size(tree.elems) && KeyOf(ElemAt(tree.elems, i).lead) == path[0]
    requires ElemAt(tree.elems, i).value.Branch? && ElemAt(tree.elems, i).value.braces
    requires IsFate(inner, BeforeValue(pre, tree.head, tree.elems, i), AfterValue(tree.elems, i, post), next, x)
    requires var merged := Merged(FieldsOf(ElemAt(tree.elems, i).value.elems, map[]), path[1..], Meaning(value), keep);
      Differs(inner, merged) && Within(Value.Obj(merged), ValueOf(x.value))
    ensures IsFate(fate, pre, post, next, x)
    ensures var merged := Merged(FieldsOf(tree.elems, map[]), path, Meaning(value), keep);
      Differs(fate, merged) && Within(Value.Obj(merged), ValueOf(x.value))
  {
    hide Show, Formed, ReadTree, Merged, Meaning, FieldsOf, BeforeValue, AfterValue, IndexOf, KeyOf, Within, IsWedge, Wedges.TextOf, ValueOf, Remainder, WithValue, IsFate;
    var es := tree.elems;
    FieldOnce(es, i, map[]);
    MergedStep(FieldsOf(es, map[]), path, value, keep, ElemAt(es, i).value);
    WithinField(Merged(FieldsOf(es, map[]), path, Meaning(value), keep), path[0], ValueOf(x.value));
    if inner.Unread? {
      UnreadOutside(pre, tree, post, next, i, x);
      fate := Unread;
      return;
    }
    FateTree(inner, BeforeValue(pre, tree.head, es, i), AfterValue(es, i, post), next, x);
    ObjectValue(inner.tree);
    if inner.Ahead? && inner.at < |Remainder(es, i)| {
      fate := Wedged(pre, tree, post, next, i, inner, x);
      WedgedDiffers(fate, FieldsOf(es, map[]), path, value, keep, ElemAt(es, i).value, inner.tree, x);
    } else {
      BranchFormed(tree.head, es);
      WithValueMerged(tree.head, es, i, inner.tree);
      fate := Onwards(pre, tree, post, next, i, inner, x);
    }
  }

  /** The object's own text is as it was, but for the member the path goes through. */
  lemma Onwards(pre: Text, tree: Tree, post: Text, next: Text, i: nat, inner: Fate, x: Wedge) returns (fate: Fate)
    requires Formed(tree) && tree.Branch? && tree.braces && i < Size(tree.elems)
    requires Times(tree.elems, KeyOf(ElemAt(tree.elems, i).lead)) == 1
    requires inner.Whole? || (inner.Ahead? && |Remainder(tree.elems, i)| <= inner.at)
    requires IsFate(inner, BeforeValue(pre, tree.head, tree.elems, i), AfterValue(tree.elems, i, post), next, x)
    ensures IsFate(fate, pre, post, next, x)
    ensures !fate.Unread? && fate.tree == Branch(true, tree.head, WithValue(tree.elems, i, inner.tree))
  {
    hide Show, Formed, ReadTree, BeforeValue, AfterValue, KeyOf, Wedges.TextOf, Remainder, WithValue, Breaks, Times, IsGap, FormedElems, FieldsOf, ValueOf;
    var es, b := tree.elems, BeforeValue(pre, tree.head, tree.elems, i);
    var changed := Branch(true, tree.head, WithValue(es, i, inner.tree));
    BranchFormed(tree.head, es);
    WithValueMerged(tree.head, es, i, inner.tree);
    ValueReplaced(pre, tree.head, es, i, inner.tree, post);
    BehindBrace(pre, tree.head, es, i, next);
    if inner.Whole? {
      fate := Whole(changed);
    } else {
      RemainderIs(es, i, post);
      fate := Ahead(changed, inner.at - |Remainder(es, i)|);
      FurtherOn(pre, Show(changed), b, Show(inner.tree), Remainder(es, i), post, inner.at, TextOf(x));
    }
  }

  lemma FateTree(fate: Fate, pre: Text, post: Text, next: Text, x: Wedge)
    requires IsFate(fate, pre, post, next, x) && !fate.Unread?
    ensures Formed(fate.tree) && fate.tree.Branch? && fate.tree.braces
  {
  }

  /** What is put in behind `e` is put into what follows it. */
  lemma FurtherOn(pre: Text, shown: Text, b: Text, v: Text, e: Text, post: Text, at: nat, w: Text)
    requires b + v + (e + post) == pre + shown + post && |e| <= at && Breaks(e + post, at)
    ensures Breaks(post, at - |e|) && b + v + Put(e + post, at, w) == pre + shown + Put(post, at - |e|, w)
  {
    hide StartsBreak;
    BreaksBack(e, post, at);
    PutBack(e, post, at, w);
    Further(b, v, e, post, Put(post, at - |e|, w));
    SameFront(pre, shown, b + v + e, post);
  }

  lemma SameFront(a: Text, b: Text, c: Text, post: Text)
    requires a + b + post == c + post
    ensures a + b == c
  {
    assert |a + b| == |c|;
    assert (a + b + post)[..|c|] == (c + post)[..|c|];
  }

  lemma Further(b: Text, v: Text, e: Text, post: Text, put: Text)
    ensures b + v + (e + put) == b + v + e + put && b + v + (e + post) == b + v + e + post
  {
  }

  lemma ObjectValue(t: Tree)
    requires t.Branch? && t.braces
    ensures ValueOf(t) == Value.Obj(FieldsOf(t.elems, map[]))
  {
  }

  lemma BehindBrace(pre: Text, head: Text, es: Elems, i: nat, next: Text)
    requires i < Size(es) && BeforeValue(pre, head, es, i) <= next
    ensures pre <= next && |pre| < |next| && next[|pre|] == LBRACE
  {
    hide Before, ShowLead;
    var b := BeforeValue(pre, head, es, i);
    InFront(pre, head, es, i, []);
    assert b + [] == b;
    assert b[|pre|] == LBRACE && b[..|pre|] == pre;
    assert next[..|b|] == b;
    assert next[|pre|] == b[|pre|];
  }

  /** The merge of an outer object holds that of the inner one. */
  lemma MergedStep(before: Fields, path: seq<Text>, value: Json, keep: bool, inner: Tree)
    requires |path| > 1 && path[0] in before && inner.Branch? && inner.braces && before[path[0]] == ValueOf(inner)
    ensures var merged := Merged(before, path, Meaning(value), keep);
      && path[0] in merged
      && merged[path[0]] == Value.Obj(Merged(FieldsOf(inner.elems, map[]), path[1..], Meaning(value), keep))
  {
    hide FieldsOf, Meaning;
  }

  /** The member is put into the object's own text, behind the member the path goes through. */
  lemma Wedged(pre: Text, tree: Tree, post: Text, next: Text, i: nat, inner: Fate, x: Wedge) returns (fate: Fate)
    requires Formed(tree) && tree.Branch? && tree.braces && i < Size(tree.elems) && IsWedge(x)
    requires Times(tree.elems, KeyOf(ElemAt(tree.elems, i).lead)) == 1
    requires inner.Ahead? && inner.at < |Remainder(tree.elems, i)|
    requires IsFate(inner, BeforeValue(pre, tree.head, tree.elems, i), AfterValue(tree.elems, i, post), next, x)
    ensures IsFate(fate, pre, post, next, x) && !fate.Ahead?
    ensures fate.Whole? ==>
      && fate.tree.Branch?
      && var found := LastOf(fate.tree.elems, KeyOf(ElemAt(tree.elems, i).lead));
      found == Some(ValueOf(inner.tree)) || found == Some(ValueOf(x.value))
  {
    hide Show, Formed, ReadTree, BeforeValue, AfterValue, KeyOf, IsWedge, Wedges.TextOf, ValueOf, Remainder, WithValue, Breaks, ReadElems, ShowElems, FormedElems, Before, ShowLead, LastOf, Times, IsGap;
    var es, v, w := tree.elems, Show(inner.tree), TextOf(x);
    var es1 := WithValue(es, i, inner.tree);
    BranchFormed(tree.head, es);
    WithValueFormed(true, es, i, inner.tree);
    WithValueTimes(es, i, inner.tree, KeyOf(ElemAt(es, i).lead));
    WithValueText(true, es, i, inner.tree);
    RemainderIs(es, i, post);
    RemainderIs(es1, i, post);
    SameRemainder(es, i, inner.tree);
    BehindBrace(pre, tree.head, es, i, next);
    var q, e := Before(es, i) + ShowLead(ElemAt(es, i).lead) + v, Remainder(es, i);
    var shown := ShowElems(true, es1);
    Assoc(q, e, post);
    BreaksAfter(q, e + post, inner.at);
    PutBack(q, e + post, |q| + inner.at, w);
    PutFront(shown, post, |q| + inner.at, w);
    BehindPut(es1, i, post, |q| + inner.at, x);
    var put := Put(shown, |q| + inner.at, w);
    InFront(pre, tree.head, es, i, v + Put(e + post, inner.at, w));
    WedgedText(pre, tree.head, Before(es, i) + ShowLead(ElemAt(es, i).lead), v, Put(e + post, inner.at, w), put, post,
      BeforeValue(pre, tree.head, es, i));
    assert next[|pre|..] == [LBRACE] + (tree.head + (put + post));
    ElemsUnbroken(true, es1, post, |q| + inner.at);
    ElemsBegin(true, es1);
    assert (put + post)[0] == (shown + post)[0] == shown[0];
    fate := ReadWedged(pre, tree.head, put, post, next);
  }

  lemma SameRemainder(es: Elems, i: nat, value: Tree)
    requires i < Size(es)
    ensures i < Size(WithValue(es, i, value)) && Remainder(WithValue(es, i, value), i) == Remainder(es, i)
  {
    hide ShowTail, After;
    WithValueText(true, es, i, value);
  }

  lemma BreaksAfter(q: Text, s: Text, k: nat)
    requires Breaks(s, k)
    ensures Breaks(q + s, |q| + k)
  {
    assert (q + s)[|q| + k..] == s[k..];
  }

  lemma WedgedText(pre: Text, head: Text, front: Text, v: Text, rest: Text, put: Text, post: Text, b: Text)
    requires front + v + rest == put + post && b + (v + rest) == pre + ([LBRACE] + head + (front + (v + rest)))
    ensures b + v + rest == pre + ([LBRACE] + (head + (put + post)))
  {
    Assoc(b, v, rest);
    Assoc(front, v, rest);
    Assoc([LBRACE], head, put + post);
  }

  lemma ReadWedged(pre: Text, head: Text, put: Text, post: Text, next: Text) returns (fate: Fate)
    requires IsGap(head) && IsToken(put + post) && next == pre + ([LBRACE] + (head + (put + post)))
    requires ReadElems(true, put + post).Some? ==> ReadElems(true, put + post).value.len == |put|
    ensures fate == if ReadTree(next[|pre|..]).None? then Unread else Whole(ReadTree(next[|pre|..]).value.it)
    ensures fate.Whole? ==>
      && Formed(fate.tree) && fate.tree.Branch? && fate.tree.braces
      && ReadElems(true, put + post).Some? && fate.tree.elems == ReadElems(true, put + post).value.it
      && next == pre + Show(fate.tree) + post
  {
    hide Show, Formed, ReadTree, ReadElems, IsGap, Skip;
    var s := [LBRACE] + (head + (put + post));
    assert next[|pre|..] == s;
    fate := if ReadTree(s).None? then Unread else Whole(ReadTree(s).value.it);
    if ReadTree(s).Some? {
      var r := ReadTree(s).value;
      BranchLength(true, head, put + post);
      SkipsTo(head, put + post);
      assert s[1..] == head + (put + post);
      ReadBranch(s, |head|);
      TreeIsText(s, r.it, r.len);
      assert s == [LBRACE] + head + put + post;
      assert s[..r.len] == [LBRACE] + head + put;
    }
  }

  /** Either way the key names something else than the merge has. */
  lemma WedgedDiffers(fate: Fate, before: Fields, path: seq<Text>, value: Json, keep: bool, was: Tree, inner: Tree, x: Wedge)
    requires |path| > 1 && path[0] in before && was.Branch? && was.braces && before[path[0]] == ValueOf(was)
    requires inner.Branch? && inner.braces && !fate.Ahead?
    requires var merged := Merged(FieldsOf(was.elems, map[]), path[1..], Meaning(value), keep);
      FieldsOf(inner.elems, map[]) != merged && Within(Value.Obj(merged), ValueOf(x.value))
    requires fate.Whole? ==>
      && fate.tree.Branch?
      && (LastOf(fate.tree.elems, path[0]) == Some(ValueOf(inner)) || LastOf(fate.tree.elems, path[0]) == Some(ValueOf(x.value)))
    ensures Differs(fate, Merged(before, path, Meaning(value), keep))
  {
    hide Merged, FieldsOf, ValueOf, Meaning, Within, LastOf;
    MergedStep(before, path, value, keep, was);
    ObjectValue(inner);
    WithinDiffers(Value.Obj(Merged(FieldsOf(was.elems, map[]), path[1..], Meaning(value), keep)), ValueOf(x.value));
    if fate.Whole? {
      LastIsField(fate.tree.elems, map[], path[0]);
    }
  }

  lemma {:induction false} PastHasFate(pre: Text, tree: Tree, post: Text, style: Style, path: seq<Text>, value: Json, keep: bool)
    returns (fate: Fate, x: Wedge)
    requires Formed(tree) && tree.Branch? && tree.braces && IsStyle(style)
    requires PastAlong(pre + Show(tree) + post, NodeOf(tree, |pre|), path)
    requires ClosesNothing(pre + Show(tree) + post, style, NodeOf(tree, |pre|), path, value)
    requires NodeOf(tree, |pre|).members.Some?
    requires UpsertIn(pre + Show(tree) + post, style, NodeOf(tree, |pre|), path, value, keep).Some?
    ensures IsFate(fate, pre, post, UpsertIn(pre + Show(tree) + post, style, NodeOf(tree, |pre|), path, value, keep).value, x)
    ensures var merged := Merged(FieldsOf(tree.elems, map[]), path, Meaning(value), keep);
      IsWedge(x) && Differs(fate, merged) && Within(Value.Obj(merged), ValueOf(x.value))
    decreases |path|
  {
    hide Show, Formed, NodeOf, IsStyle, IsFate, Differs, Past, IndexOf, KeyOf, BeforeValue, AfterValue, Matching, Within, IsWedge, Merged, FieldsOf, CloseFrom, Strays.AddedText;
    var es, key := tree.elems, path[0];
    MatchingOf(tree, |pre|, key);
    if Times(es, key) == 0 {
      fate, x := PastHere(pre, tree, post, style, path, value, keep);
    } else {
      FoundAt(tree, pre, key);
      var i := IndexOf(es, key);
      var inner := ElemAt(es, i).value;
      ValueInPlace(pre, tree.head, es, i, post);
      BranchFormed(tree.head, es);
      InnerFormed(es, i, |BeforeValue(pre, tree.head, es, i)|);
      var b, a := BeforeValue(pre, tree.head, es, i), AfterValue(es, i, post);
      var within;
      within, x := PastHasFate(b, inner, a, style, path[1..], value, keep);
      fate := FateOutside(pre, tree, post, UpsertIn(pre + Show(tree) + post, style, NodeOf(tree, |pre|), path, value, keep).value,
        path, value, keep, i, within, x);
    }
  }

  // ----- Whole files -----

  /** An edit that neither lands nor goes past its object stays in a comment inside it. */
  lemma {:induction false} PastOrPut(text: Text, style: Style, node: Node, path: seq<Text>, value: Json, keep: bool)
    requires node.members.Some? && UpsertIn(text, style, node, path, value, keep).Some?
    requires !ClearAlong(text, node, path) && !PastAlong(text, node, path) && ClosesNothing(text, style, node, path, value)
    ensures StaysPut(text, style, node, path, value)
    decreases |path|
  {
    hide Clear, Strays.AddedText, Matching, CloseFrom, Landing, Wrapped, Insert, Replace;
    var matches := Matching(node.members.value, path[0]);
    if matches != [] {
      PastOrPut(text, style, matches[0].value, path[1..], value, keep);
    }
  }

  /** A text that starts as a file does, up to the opening brace of its object, is read from there. */
  lemma SamePlace(p: Text, next: Text)
    requires IsOpening(p) && p <= next && |p| < |next| && next[|p|] == LBRACE
    ensures ReadDocument(next).Some? ==>
      ReadTree(next[|p|..]).Some? && ReadDocument(next).value.tree == ReadTree(next[|p|..]).value.it
  {
    hide IsOpening, ReadTree, Skip, SkipFrom;
    assert next == p + next[|p|..];
    OpeningSkipped(p, next[|p|..]);
  }

  /** Whatever became of the file's object, the file does not mean the merge. */
  lemma FateMeans(p: Text, e: Text, next: Text, fate: Fate, x: Wedge, merged: Fields)
    requires IsOpening(p) && IsFate(fate, p, e, next, x) && Differs(fate, merged)
    ensures ParsedValue(next) != Some(Value.Obj(merged))
  {
    hide IsOpening, Show, Formed, ReadTree, ReadDocument, FieldsOf, Wedges.TextOf, StartsBreak;
    SamePlace(p, next);
    if !fate.Unread? {
      var rest := if fate.Whole? then e else Put(e, fate.at, TextOf(x));
      ObjectReads(fate.tree, rest);
      Assoc(p, Show(fate.tree), rest);
      assert next[|p|..] == Show(fate.tree) + rest;
      ObjectValue(fate.tree);
    }
  }

  /** After an edit past its object the file does not parse, or parses to something else than the merge. */
  lemma PastNeverCommutes(text: Text, path: seq<Text>, value: Json, keep: bool)
    requires ParseSpec(text).Some? && PastAlong(text, ParseSpec(text).value, path)
    requires var root := ParseSpec(text).value; root.members.Some? && ClosesNothing(text, StyleOf(text, root), root, path, value)
    requires Upsert(text, path, value, keep).Some?
    ensures var before, next := ParsedValue(text), Upsert(text, path, value, keep).value;
      && before.Some? && before.value.Obj?
      && ParsedValue(next) != Some(Value.Obj(Merged(before.value.fields, path, Meaning(value), keep)))
  {
    hide Show, ReadDocument, ReadTree, UpsertIn, Merged, FieldsOf, Meaning, StyleOf, PastAlong, Formed, IsStyle, IsOpening, IsEnding, ClosesNothing, IsFate, Differs, Within, IsWedge;
    var d := ReadDocument(text).value;
    DocumentIs(text, d);
    var p, e := text[..d.start], text[d.start + |Show(d.tree)|..];
    var root := NodeOf(d.tree, |p|);
    StyleIsStyle(text, root);
    NotObject(d.tree, |p|);
    ObjectValue(d.tree);
    var fate, x := PastHasFate(p, d.tree, e, StyleOf(text, root), path, value, keep);
    FateMeans(p, e, Upsert(text, path, value, keep).value, fate, x, Merged(FieldsOf(d.tree.elems, map[]), path, Meaning(value), keep));
  }

  /** The guard is exact: of the edits whose added text closes no comment, the ones that parse to the merge are the ones that land. */
  lemma LandsExactly(text: Text, path: seq<Text>, value: Json, keep: bool)
    requires Upsert(text, path, value, keep).Some? && ParseSpec(text).Some?
    requires var root := ParseSpec(text).value; root.members.Some? && ClosesNothing(text, StyleOf(text, root), root, path, value)
    ensures var before, after := ParsedValue(text), ParsedValue(Upsert(text, path, value, keep).value);
      && before.Some? && before.value.Obj?
      && (Lands(text, path) <==> after == Some(Value.Obj(Merged(before.value.fields, path, Meaning(value), keep))))
  {
    hide ReadDocument, UpsertIn, Merged, Meaning, StyleOf, StaysPut, ClearAlong, PastAlong, ClosesNothing, NodeOf;
    var root := ParseSpec(text).value;
    if Lands(text, path) {
      EditCommutes(text, path, value, keep);
    } else if PastAlong(text, root, path) {
      PastNeverCommutes(text, path, value, keep);
    } else {
      PastOrPut(text, StyleOf(text, root), root, path, value, keep);
      CommutesExactly(text, path, value, keep);
    }
  }
}
