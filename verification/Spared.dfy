/** What an edit leaves alone in the text of a file: everything but one span and at most one comma. */
module Spared {
  import opened Units
  import opened Json
  import opened Values
  import opened Syntax
  import opened Nodes
  import opened Editor
  import opened TreeEdits
  import opened Inserts
  import opened Appends
  import opened Commutes
  import opened Documents
  import opened JsonEdits
  import opened Locality

  // ----- The text -----

  /** `next` is `text` with `removed` replaced by `added`; where nothing is removed, perhaps with a comma put in before. */
  predicate Spliced(text: Text, next: Text, u: Text, comma: Text, v: Text, removed: Text, added: Text, w: Text) {
    && text == u + v + removed + w
    && next == u + comma + v + added + w
    && (comma == [] || (comma == [COMMA] && removed == []))
  }

  /**
   * `x`, from offset `from` on, is the text of the value `path` names, or the blanks that are all there is in the empty
   * object its steps lead to; `t` starts at offset `at`.
   */
  ghost predicate MayGo(t: Tree, at: nat, path: seq<Text>, from: nat, x: Text)
    decreases |path|
  {
    && path != [] && t.Branch? && t.braces
    && (|| (t.elems.End? && from == at + 1 && x == t.head && IsSpaces(x))
        || exists i: nat :: i < Size(t.elems) && MayGoAt(t, at, path, i, from, x))
  }

  ghost predicate MayGoAt(t: Tree, at: nat, path: seq<Text>, i: nat, from: nat, x: Text)
    requires path != [] && t.Branch? && i < Size(t.elems)
    decreases |path|, 0
  {
    var value := ElemAt(t.elems, i).value;
    && KeyOf(ElemAt(t.elems, i).lead) == path[0]
    && if |path| == 1 then from == at + LeadLen(t, i) && x == Show(value)
       else MayGo(value, at + LeadLen(t, i), path[1..], from, x)
  }

  /**
   * One span of `text`, in which `before` starts at offset `at`, is replaced, of the value `path` names or of the blanks in
   * an empty object on its way, or something is put in; and at most one comma is put in before that.
   */
  ghost predicate OneSpan(text: Text, next: Text, before: Tree, at: nat, path: seq<Text>) {
    exists u, comma, v, removed, added, w ::
      && Spliced(text, next, u, comma, v, removed, added, w)
      && (removed == [] || MayGo(before, at, path, |u| + |v|, removed))
  }

  lemma SpanIs(text: Text, next: Text, before: Tree, at: nat, path: seq<Text>, u: Text, comma: Text, v: Text, removed: Text, added: Text, w: Text)
    requires Spliced(text, next, u, comma, v, removed, added, w)
    requires removed == [] || MayGo(before, at, path, |u| + |v|, removed)
    ensures OneSpan(text, next, before, at, path)
  {
  }

  lemma NothingChanged(text: Text, before: Tree, at: nat, path: seq<Text>)
    ensures OneSpan(text, text, before, at, path)
  {
    hide MayGo, IsSpaces;
    assert text == text + [] + [] + [];
    SpanIs(text, text, before, at, path, text, [], [], [], [], []);
  }

  /** An object's first member takes the place of blanks, or is put between what stays. */
  lemma FirstSpan(pre: Text, before: Tree, after: Tree, post: Text, path: seq<Text>)
    requires path != [] && before.Branch? && before.braces && after.Branch? && after.braces && FirstAdded(before, after, path[0])
    ensures OneSpan(pre + Show(before) + post, pre + Show(after) + post, before, |pre|, path)
  {
    hide ShowElem, MayGo, IsSpaces, KeyOf, Show, IsBlanks;
    var elem := after.elems.elem;
    var a, z := pre + [LBRACE], [RBRACE] + post;
    var text, next := pre + Show(before) + post, pre + Show(after) + post;
    EmptyShown(pre, before.head, post);
    OneShown(pre, after.head, elem, post);
    if IsSpaces(before.head) {
      assert text == a + [] + before.head + z;
      assert next == a + [] + [] + (after.head + ShowElem(elem)) + z;
      BlanksMayGo(before, |pre|, path);
      SpanIs(text, next, before, |pre|, path, a, [], [], before.head, after.head + ShowElem(elem), z);
    } else {
      var cut: nat, x, y :| cut <= |before.head| && IsBlanks(x) && IsBlanks(y)
        && after.head == before.head[..cut] + x && elem.tail.before == y + before.head[cut..];
      var member := ShowLead(elem.lead) + Show(elem.value);
      ElemText(elem);
      assert after.head + ShowElem(elem) == before.head[..cut] + x + (member + (y + before.head[cut..]));
      CutSpan(a, before.head[..cut], before.head[cut..], x, member, y, z);
      assert before.head == before.head[..cut] + before.head[cut..];
      SpanIs(text, next, before, |pre|, path, a + before.head[..cut], [], [], [], x + member + y, before.head[cut..] + z);
    }
  }

  lemma BlanksMayGo(t: Tree, at: nat, path: seq<Text>)
    requires path != [] && t.Branch? && t.braces && t.elems.End? && IsSpaces(t.head)
    ensures MayGo(t, at, path, at + 1, t.head)
  {
  }

  lemma OneShown(pre: Text, head: Text, elem: Elem, post: Text)
    ensures pre + Show(Branch(true, head, More(elem, End))) + post == (pre + [LBRACE]) + (head + ShowElem(elem)) + ([RBRACE] + post)
  {
    hide ShowElem;
    ShownInserted(pre, head, elem, post);
  }

  lemma CutSpan(a: Text, h: Text, t: Text, x: Text, member: Text, y: Text, z: Text)
    ensures a + (h + t) + z == (a + h) + [] + [] + (t + z)
    ensures a + (h + x + (member + (y + t))) + z == (a + h) + [] + [] + (x + member + y) + (t + z)
  {
  }

  /** A last member is put between what stays, and a comma after the one before it. */
  lemma LastSpan(pre: Text, before: Tree, after: Tree, post: Text, path: seq<Text>)
    requires path != [] && before.Branch? && before.braces && after.Branch? && LastAdded(before, after, path[0])
    ensures OneSpan(pre + Show(before) + post, pre + Show(after) + post, before, |pre|, path)
  {
    hide ShowElem, MayGo, IsSpaces, Show, IsBlanks, Extended, WrittenElem, WrittenMember, UpToTrivia;
    var es, tail := before.elems, LastElem(before.elems).tail;
    var cut: nat, lead, value :| cut <= |LastTrivia(tail)| && IsBlanks(lead)
      && after == Branch(true, before.head, Extended(es, OldTail(tail, cut, lead), WrittenElem(path[0], value, NewTail(tail, cut))));
    var text, next := pre + Show(before) + post, pre + Show(after) + post;
    var u, v, w := UpToTrivia(pre, before.head, es), LastTrivia(tail)[..cut], LastTrivia(tail)[cut..] + ([RBRACE] + post);
    var comma, added := if tail.Plain? then [COMMA] else [],
      lead + WrittenMember(path[0], Show(value)) + if tail.Plain? then [] else [COMMA];
    ObjectText(pre, before.head, es, post);
    EditedText(pre, before.head, es, post, cut, lead, path[0], value);
    assert LastTrivia(tail) == v + LastTrivia(tail)[cut..];
    LastParts(u, v, LastTrivia(tail)[cut..], [RBRACE] + post);
    SpanIs(text, next, before, |pre|, path, u, comma, v, [], added, w);
  }

  lemma LastParts(u: Text, v: Text, t: Text, z: Text)
    ensures u + (v + t + z) == u + v + [] + (t + z)
  {
  }

  lemma ValueSpan(pre: Text, before: Tree, i: nat, value: Tree, post: Text, path: seq<Text>)
    requires before.Branch? && before.braces && i < Size(before.elems) && |path| == 1
    requires KeyOf(ElemAt(before.elems, i).lead) == path[0]
    ensures OneSpan(pre + Show(before) + post, pre + Show(Branch(true, before.head, WithValue(before.elems, i, value))) + post, before, |pre|, path)
  {
    hide Show, KeyOf, BeforeValue, AfterValue, IsSpaces, WithValue;
    var es := before.elems;
    ValueInPlace(pre, before.head, es, i, post);
    ValueReplaced(pre, before.head, es, i, value, post);
    var u, w := BeforeValue(pre, before.head, es, i), AfterValue(es, i, post);
    var old_ := Show(ElemAt(es, i).value);
    LeadBefore(pre, before, i);
    assert MayGoAt(before, |pre|, path, i, |u|, old_);
    assert u + [] == u;
    SpanIs(u + old_ + w, u + Show(value) + w, before, |pre|, path, u, [], [], old_, Show(value), w);
  }

  /** Of any object in its place, the one member `path` names aside, the text stays. */
  lemma {:induction false} TreeSpan(pre: Text, before: Tree, after: Tree, post: Text, path: seq<Text>)
    requires OnlyNamed(before, after, path)
    ensures OneSpan(pre + Show(before) + post, pre + Show(after) + post, before, |pre|, path)
    decreases |path|
  {
    hide Show, KeyOf, BeforeValue, AfterValue, FirstAdded, LastAdded, OneSpan, WithValue;
    if after == before {
      NothingChanged(pre + Show(before) + post, before, |pre|, path);
    } else if FirstAdded(before, after, path[0]) {
      FirstSpan(pre, before, after, post, path);
    } else if LastAdded(before, after, path[0]) {
      LastSpan(pre, before, after, post, path);
    } else {
      var i: nat, value: Tree :| i < Size(before.elems)
        && after == Branch(true, before.head, WithValue(before.elems, i, value))
        && KeyOf(ElemAt(before.elems, i).lead) == path[0]
        && (|path| > 1 ==> OnlyNamed(ElemAt(before.elems, i).value, value, path[1..]));
      if |path| == 1 {
        ValueSpan(pre, before, i, value, post, path);
      } else {
        var es := before.elems;
        ValueInPlace(pre, before.head, es, i, post);
        ValueReplaced(pre, before.head, es, i, value, post);
        TreeSpan(BeforeValue(pre, before.head, es, i), ElemAt(es, i).value, value, AfterValue(es, i, post), path[1..]);
        LeadBefore(pre, before, i);
        InnerSpan(pre + Show(before) + post, pre + Show(after) + post, before, |pre|, i, path);
      }
    }
  }

  lemma LeadBefore(pre: Text, before: Tree, i: nat)
    requires before.Branch? && i < Size(before.elems)
    ensures |BeforeValue(pre, before.head, before.elems, i)| == |pre| + LeadLen(before, i)
  {
  }

  lemma InnerSpan(text: Text, next: Text, before: Tree, at: nat, i: nat, path: seq<Text>)
    requires |path| > 1 && before.Branch? && before.braces && i < Size(before.elems) && KeyOf(ElemAt(before.elems, i).lead) == path[0]
    requires OneSpan(text, next, ElemAt(before.elems, i).value, at + LeadLen(before, i), path[1..])
    ensures OneSpan(text, next, before, at, path)
  {
    hide Spliced, Show, KeyOf, IsSpaces, LeadLen;
    var value, from := ElemAt(before.elems, i).value, at + LeadLen(before, i);
    var u, comma, v, removed, added, w :|
      && Spliced(text, next, u, comma, v, removed, added, w)
      && (removed == [] || MayGo(value, from, path[1..], |u| + |v|, removed));
    if removed != [] {
      assert MayGoAt(before, at, path, i, |u| + |v|, removed);
    }
    SpanIs(text, next, before, at, path, u, comma, v, removed, added, w);
  }

  /**
   * The text an edit that lands returns is the old one with one span replaced or inserted, and at most one comma
   * inserted: the span of the named value, the blanks that fill an empty object on the path, or nothing.
   */
  lemma EditReplacesOneSpan(text: Text, path: seq<Text>, value: Json, keep: bool)
    requires Upsert(text, path, value, keep).Some? && Lands(text, path)
    ensures ReadDocument(text).Some?
    ensures OneSpan(text, Upsert(text, path, value, keep).value, ReadDocument(text).value.tree, ReadDocument(text).value.start, path)
  {
    hide Show, ReadDocument, Upsert, Merged, FieldsOf, Lands, Meaning, OnlyNamed, Formed, OneSpan;
    EditIs(text, path, value, keep);
    var next := Upsert(text, path, value, keep).value;
    var start, before, after := ReadDocument(text).value.start, ReadDocument(text).value.tree, ReadDocument(next).value.tree;
    TreeSpan(text[..start], before, after, text[start + |Show(before)|..], path);
  }

  // ----- The other members -----

  /** `route` steps aside from the members `path` names. */
  predicate Apart(t: Tree, path: seq<Text>, route: Route)
    decreases |route|
  {
    && route != [] && path != [] && t.Branch? && route[0] < Size(t.elems)
    && (|| KeyOf(ElemAt(t.elems, route[0]).lead) != path[0]
        || (|path| > 1 && Apart(ElemAt(t.elems, route[0]).value, path[1..], route[1..])))
  }

  /** The element `route` leads to. */
  function Along(t: Tree, route: Route): Elem
    requires route != [] && HasRoute(t, route)
    decreases |route|
  {
    if |route| == 1 then ElemAt(t.elems, route[0]) else Along(ElemAt(t.elems, route[0]).value, route[1..])
  }

  lemma {:induction false} AlongIsSub(t: Tree, route: Route)
    requires route != [] && HasRoute(t, route)
    ensures Sub(t, route) == Along(t, route).value
    decreases |route|
  {
    if |route| > 1 {
      AlongIsSub(ElemAt(t.elems, route[0]).value, route[1..]);
    } else {
      assert route[1..] == [];
    }
  }

  /** The same key, as it is written, and the same value. */
  predicate SameMember(a: Elem, b: Elem) {
    a.lead == b.lead && a.value == b.value
  }

  /** What leads to another member's value, or into it, leads to the same one after the edit. */
  lemma OneStep(before: Tree, after: Tree, route: Route)
    requires before.Branch? && after.Branch? && HasRoute(before, route) && route != []
    requires route[0] < Size(after.elems) && SameMember(ElemAt(after.elems, route[0]), ElemAt(before.elems, route[0]))
    ensures HasRoute(after, route) && SameMember(Along(after, route), Along(before, route))
  {
  }

  /** Every other member keeps its key and its value as they are written, and its place among the members. */
  lemma {:induction false} OthersStay(before: Tree, after: Tree, path: seq<Text>, route: Route)
    requires OnlyNamed(before, after, path) && HasRoute(before, route) && Apart(before, path, route)
    ensures HasRoute(after, route) && SameMember(Along(after, route), Along(before, route))
    decreases |route|
  {
    hide KeyOf, FirstAdded, LastAdded, WithValue;
    if after == before {
    } else if FirstAdded(before, after, path[0]) {
      FirstHasNone(before, after, path[0], route);
    } else if LastAdded(before, after, path[0]) {
      LastKeeps(before, after, path[0], route[0]);
      OneStep(before, after, route);
    } else {
      var i: nat, value: Tree :| i < Size(before.elems)
        && after == Branch(true, before.head, WithValue(before.elems, i, value))
        && KeyOf(ElemAt(before.elems, i).lead) == path[0]
        && (|path| > 1 ==> OnlyNamed(ElemAt(before.elems, i).value, value, path[1..]));
      WithValueText(true, before.elems, i, value);
      if route[0] != i {
        WithValueKeepsOthers(before.elems, i, value, route[0]);
        OneStep(before, after, route);
      } else {
        OthersStay(ElemAt(before.elems, i).value, value, path[1..], route[1..]);
      }
    }
  }

  lemma FirstHasNone(before: Tree, after: Tree, key: Text, route: Route)
    requires before.Branch? && after.Branch? && FirstAdded(before, after, key) && route != []
    ensures !HasRoute(before, route)
  {
  }

  lemma LastKeeps(before: Tree, after: Tree, key: Text, j: nat)
    requires before.Branch? && after.Branch? && LastAdded(before, after, key) && j < Size(before.elems)
    ensures j < Size(after.elems) && SameMember(ElemAt(after.elems, j), ElemAt(before.elems, j))
  {
    hide Extended, WrittenElem, OldTail, NewTail, IsBlanks, Show;
    var es, tail := before.elems, LastElem(before.elems).tail;
    var cut: nat, lead, value :| cut <= |LastTrivia(tail)| && IsBlanks(lead)
      && after == Branch(true, before.head, Extended(es, OldTail(tail, cut, lead), WrittenElem(key, value, NewTail(tail, cut))));
    ExtendedKeepsOthers(es, OldTail(tail, cut, lead), WrittenElem(key, value, NewTail(tail, cut)), j);
    LastIsAt(es);
  }

  lemma SpanIsShown(text: Text, d: Document, route: Route)
    requires ReadDocument(text) == Some(d) && HasRoute(d.tree, route)
    ensures var from, to := OffsetOf(d.tree, route, d.start), EndOf(d.tree, route, d.start);
      to <= |text| && text[from..to] == Show(Sub(d.tree, route))
  {
    hide Show, ReadDocument, Formed, IsOpening, IsEnding;
    DocumentIs(text, d);
    var sub := Sub(d.tree, route);
    var p', e' := InPlace(text[..d.start], d.tree, route, sub, text[d.start + |Show(d.tree)|..]);
    assert (p' + Show(sub) + e')[|p'|..|p'| + |Show(sub)|] == Show(sub);
  }

  /** In the edited file every other member stands under the same key, at the same place among its siblings, with its exact source text. */
  lemma OthersKeepTheirText(text: Text, path: seq<Text>, value: Json, keep: bool, route: Route)
    requires Upsert(text, path, value, keep).Some? && Lands(text, path) && ReadDocument(text).Some?
    requires HasRoute(ReadDocument(text).value.tree, route) && Apart(ReadDocument(text).value.tree, path, route)
    ensures var next := Upsert(text, path, value, keep).value; var d := ReadDocument(text).value;
      && ReadDocument(next).Some?
      && var d' := ReadDocument(next).value;
      && HasRoute(d'.tree, route) && Along(d'.tree, route).lead == Along(d.tree, route).lead
      && EndOf(d.tree, route, d.start) <= |text| && EndOf(d'.tree, route, d'.start) <= |next|
      && text[OffsetOf(d.tree, route, d.start)..EndOf(d.tree, route, d.start)]
           == next[OffsetOf(d'.tree, route, d'.start)..EndOf(d'.tree, route, d'.start)]
  {
    hide Show, ReadDocument, Upsert, Merged, FieldsOf, Lands, Meaning, OnlyNamed, Formed, OffsetOf, Apart;
    EditIs(text, path, value, keep);
    var next := Upsert(text, path, value, keep).value;
    var d, d' := ReadDocument(text).value, ReadDocument(next).value;
    assert route != [] by { ApartIsSome(d.tree, path, route); }
    OthersStay(d.tree, d'.tree, path, route);
    AlongIsSub(d.tree, route);
    AlongIsSub(d'.tree, route);
    SpanIsShown(text, d, route);
    SpanIsShown(next, d', route);
  }

  lemma ApartIsSome(t: Tree, path: seq<Text>, route: Route)
    requires Apart(t, path, route)
    ensures route != []
  {
  }
}
