/** Where values stand in a file, and what replacing one does to the parse. */
module Locality {
  import opened Units
  import opened Trivia
  import opened Json
  import opened Syntax
  import opened Nodes
  import opened Editor
  import opened TreeEdits
  import opened Layout
  import opened Inserts
  import opened Appends
  import opened Documents
  import opened JsonEdits

  /** Which element to step into, from the root down. */
  type Route = seq<nat>

  predicate HasRoute(t: Tree, route: Route)
    decreases |route|
  {
    route == [] ||
    (t.Branch? && route[0] < Size(t.elems) && HasRoute(ElemAt(t.elems, route[0]).value, route[1..]))
  }

  function Sub(t: Tree, route: Route): Tree
    requires HasRoute(t, route)
    decreases |route|
  {
    if route == [] then t else Sub(ElemAt(t.elems, route[0]).value, route[1..])
  }

  /** `t` with the value at `route` replaced. */
  function With(t: Tree, route: Route, value: Tree): Tree
    requires HasRoute(t, route)
    decreases |route|
  {
    if route == [] then value
    else t.(elems := WithValue(t.elems, route[0], With(ElemAt(t.elems, route[0]).value, route[1..], value)))
  }

  /** How many units of a bracket's text stand before the value of its element `i`. */
  function LeadLen(t: Tree, i: nat): nat
    requires t.Branch? && i < Size(t.elems)
  {
    1 + |t.head| + |Before(t.elems, i)| + |ShowLead(ElemAt(t.elems, i).lead)|
  }

  /** Where the value at `route` starts, in a text in which `t` starts at offset `at`. */
  function OffsetOf(t: Tree, route: Route, at: nat): nat
    requires HasRoute(t, route)
    decreases |route|
  {
    if route == [] then at else OffsetOf(ElemAt(t.elems, route[0]).value, route[1..], at + LeadLen(t, route[0]))
  }

  function EndOf(t: Tree, route: Route, at: nat): nat
    requires HasRoute(t, route)
  {
    OffsetOf(t, route, at) + |Show(Sub(t, route))|
  }

  // ----- Text -----

  function BeforeElemValue(t: Tree, i: nat): Text
    requires t.Branch? && i < Size(t.elems)
  {
    [Opener(t.braces)] + t.head + Before(t.elems, i) + ShowLead(ElemAt(t.elems, i).lead)
  }

  function AfterElemValue(t: Tree, i: nat): Text
    requires t.Branch? && i < Size(t.elems)
  {
    ShowTail(ElemAt(t.elems, i).tail) + After(t.braces, t.elems, i)
  }

  lemma BranchSplit(t: Tree, i: nat)
    requires t.Branch? && i < Size(t.elems)
    ensures Show(t) == BeforeElemValue(t, i) + Show(ElemAt(t.elems, i).value) + AfterElemValue(t, i)
    ensures |BeforeElemValue(t, i)| == LeadLen(t, i)
  {
    hide ShowLead, ShowTail, ShowElem, ShowElems, Before, After;
    var elem, after := ElemAt(t.elems, i), After(t.braces, t.elems, i);
    SplitAtElem(t.braces, t.elems, i);
    ElemText(elem);
    assert Show(t) == [Opener(t.braces)] + t.head + ShowElems(t.braces, t.elems);
    SplitText([Opener(t.braces)] + t.head, Before(t.elems, i), ShowLead(elem.lead), Show(elem.value), ShowTail(elem.tail), after);
  }

  lemma SplitText(a: Text, b: Text, l: Text, v: Text, t: Text, z: Text)
    ensures a + (b + (l + v + t) + z) == a + b + l + v + (t + z)
  {
    Assoc(a, b + (l + v + t), z);
    Assoc(a, b, l + v + t);
    Assoc(a + b, l + v, t);
    Assoc(a + b, l, v);
    Assoc(a + b + l + v, t, z);
  }

  lemma WithValueSplit(t: Tree, i: nat, value: Tree)
    requires t.Branch? && i < Size(t.elems)
    ensures var t' := t.(elems := WithValue(t.elems, i, value));
      Show(t') == BeforeElemValue(t, i) + Show(value) + AfterElemValue(t, i)
  {
    hide ShowLead, ShowTail, ShowElem, ShowElems, Before, After, Show;
    WithValueText(t.braces, t.elems, i, value);
    BranchSplit(t.(elems := WithValue(t.elems, i, value)), i);
  }

  /** A value in its place in a text, and the same text with another value there. */
  lemma {:induction false} InPlace(p: Text, t: Tree, route: Route, value: Tree, e: Text)
    returns (p': Text, e': Text)
    requires HasRoute(t, route)
    ensures |p'| == OffsetOf(t, route, |p|)
    ensures p + Show(t) + e == p' + Show(Sub(t, route)) + e'
    ensures p + Show(With(t, route, value)) + e == p' + Show(value) + e'
    decreases |route|
  {
    hide Show, BeforeElemValue, AfterElemValue, LeadLen;
    if route == [] {
      p', e' := p, e;
    } else {
      var i := route[0];
      var inner := ElemAt(t.elems, i).value;
      var b, a := BeforeElemValue(t, i), AfterElemValue(t, i);
      BranchSplit(t, i);
      WithValueSplit(t, i, With(inner, route[1..], value));
      Wrap(p, b, Show(inner), a, e);
      Wrap(p, b, Show(With(inner, route[1..], value)), a, e);
      p', e' := InPlace(p + b, inner, route[1..], value, a + e);
    }
  }

  lemma Wrap(p: Text, b: Text, v: Text, a: Text, e: Text)
    ensures p + (b + v + a) + e == p + b + v + (a + e)
  {
    Assoc(p, b + v, a);
    Assoc(p, b, v);
    Assoc(p + b + v, a, e);
  }

  // ----- Well-formedness -----

  lemma {:induction false} SubFormed(t: Tree, route: Route)
    requires HasRoute(t, route) && Formed(t)
    ensures Formed(Sub(t, route))
    decreases |route|
  {
    hide IsGap, FormedLeaf, FormedElems;
    if route != [] {
      ElemAtFormed(t.braces, t.elems, route[0]);
      SubFormed(ElemAt(t.elems, route[0]).value, route[1..]);
    }
  }

  lemma {:induction false} WithFormed(t: Tree, route: Route, value: Tree)
    requires HasRoute(t, route) && Formed(t) && Formed(value)
    ensures Formed(With(t, route, value))
    decreases |route|
  {
    hide IsGap, FormedLeaf, FormedElems;
    if route != [] {
      ElemAtFormed(t.braces, t.elems, route[0]);
      var inner := ElemAt(t.elems, route[0]).value;
      WithFormed(inner, route[1..], value);
      WithValueFormed(t.braces, t.elems, route[0], With(inner, route[1..], value));
    }
  }

  // ----- The parse of a part, and of a text with a part replaced -----

  /** Reading a value's own span, by itself, gives that value. */
  lemma SpanReads(text: Text, d: Document, route: Route)
    requires ReadDocument(text) == Some(d) && HasRoute(d.tree, route)
    ensures var from, to := OffsetOf(d.tree, route, d.start), EndOf(d.tree, route, d.start);
      && to <= |text|
      && ReadDocument(text[from..to]) == Some(Document(0, Sub(d.tree, route)))
      && ParsedValue(text[from..to]) == Some(ValueOf(Sub(d.tree, route)))
  {
    hide Show, ReadDocument, Formed, NodeOf, ValueOf, IsOpening, IsEnding;
    DocumentIs(text, d);
    var p, e := text[..d.start], text[d.start + |Show(d.tree)|..];
    var sub := Sub(d.tree, route);
    var p', e' := InPlace(p, d.tree, route, sub, e);
    SubFormed(d.tree, route);
    AloneReads(sub);
    assert text[|p'|..|p'| + |Show(sub)|] == Show(sub);
  }

  lemma AloneReads(t: Tree)
    requires Formed(t)
    ensures ReadDocument(Show(t)) == Some(Document(0, t))
  {
    hide Show, ReadDocument, Formed;
    assert IsOpening([]) && IsEnding([]) by { NothingAround(); }
    DocumentReads([], t, []);
    assert [] + Show(t) + [] == Show(t);
  }

  lemma NothingAround()
    ensures IsOpening([]) && IsEnding([])
  {
  }

  /**
   * Replacing the span of any value, at any depth, by the text of another value reads as the same
   * tree with only that value changed.
   */
  lemma ReplacedReads(text: Text, d: Document, route: Route, value: Tree)
    requires ReadDocument(text) == Some(d) && HasRoute(d.tree, route) && Formed(value)
    ensures var from, to := OffsetOf(d.tree, route, d.start), EndOf(d.tree, route, d.start);
      ReadDocument(Splice(text, from, to, Show(value))) == Some(Document(d.start, With(d.tree, route, value)))
  {
    hide Show, ReadDocument, Formed, IsOpening, IsEnding, Splice;
    DocumentIs(text, d);
    var p, e := text[..d.start], text[d.start + |Show(d.tree)|..];
    var p', e' := InPlace(p, d.tree, route, value, e);
    WithFormed(d.tree, route, value);
    DocumentReads(p, With(d.tree, route, value), e);
    SpliceAt(p', Show(Sub(d.tree, route)), e', Show(value));
  }

  // ----- Spans -----

  lemma LeadFits(t: Tree, i: nat)
    requires t.Branch? && i < Size(t.elems)
    ensures LeadLen(t, i) + |Show(ElemAt(t.elems, i).value)| < |Show(t)|
  {
    hide Show, LeadLen;
    BranchSplit(t, i);
    LastAfterIsNot(t, i);
  }

  lemma LastAfterIsNot(t: Tree, i: nat)
    requires t.Branch? && i < Size(t.elems)
    ensures AfterElemValue(t, i) != []
  {
    hide ShowElem;
    AfterIsNot(t.braces, t.elems, i);
  }

  lemma {:induction false} AfterIsNot(braces: bool, es: Elems, i: nat)
    requires i < Size(es)
    ensures After(braces, es, i) != []
  {
    hide ShowElem;
    if i > 0 {
      AfterIsNot(braces, es.rest, i - 1);
    }
  }

  /** A value's span is inside that of every value around it. */
  lemma {:induction false} SpansNest(t: Tree, route: Route, at: nat)
    requires HasRoute(t, route)
    ensures at <= OffsetOf(t, route, at) && EndOf(t, route, at) <= at + |Show(t)|
    ensures route != [] ==> at < OffsetOf(t, route, at) && EndOf(t, route, at) < at + |Show(t)|
    decreases |route|
  {
    hide Show, LeadLen;
    if route != [] {
      LeadFits(t, route[0]);
      LeadIsPositive(t, route[0]);
      SpansNest(ElemAt(t.elems, route[0]).value, route[1..], at + LeadLen(t, route[0]));
    }
  }

  lemma LeadIsPositive(t: Tree, i: nat)
    requires t.Branch? && i < Size(t.elems)
    ensures LeadLen(t, i) > 0
  {
  }

  /** Neither route leads through the other, and `a` turns off first to an earlier element. */
  predicate Precedes(a: Route, b: Route)
    decreases |a|
  {
    a != [] && b != [] && (a[0] < b[0] || (a[0] == b[0] && Precedes(a[1..], b[1..])))
  }

  lemma {:induction false} BeforeGrows(es: Elems, i: nat, j: nat)
    requires i < j < Size(es)
    ensures |Before(es, i)| + |ShowElem(ElemAt(es, i))| <= |Before(es, j)|
  {
    hide ShowElem;
    if i > 0 {
      BeforeGrows(es.rest, i - 1, j - 1);
    }
  }

  lemma LeadsApart(t: Tree, i: nat, j: nat)
    requires t.Branch? && i < j < Size(t.elems)
    ensures LeadLen(t, i) + |Show(ElemAt(t.elems, i).value)| <= LeadLen(t, j)
  {
    hide Show, ShowLead, ShowTail, Before;
    BeforeGrows(t.elems, i, j);
    ElemText(ElemAt(t.elems, i));
  }

  /** Values neither of which holds the other have disjoint spans, in source order. */
  lemma {:induction false} SpansAreOrdered(t: Tree, a: Route, b: Route, at: nat)
    requires HasRoute(t, a) && HasRoute(t, b) && Precedes(a, b)
    ensures EndOf(t, a, at) <= OffsetOf(t, b, at)
    decreases |a|
  {
    hide Show, LeadLen;
    var i, j := a[0], b[0];
    var from := at + LeadLen(t, i);
    if i == j {
      SpansAreOrdered(ElemAt(t.elems, i).value, a[1..], b[1..], from);
    } else {
      LeadsApart(t, i, j);
      SpansNest(ElemAt(t.elems, i).value, a[1..], from);
      SpansNest(ElemAt(t.elems, j).value, b[1..], at + LeadLen(t, j));
    }
  }

  // ----- Offsets after a replacement -----

  lemma {:induction false} WithValueBefore(es: Elems, i: nat, value: Tree, j: nat)
    requires i < Size(es) && j < Size(es)
    ensures var es' := WithValue(es, i, value);
      && Size(es') == Size(es)
      && (j != i ==> ElemAt(es', j) == ElemAt(es, j))
      && |Before(es', j)| == |Before(es, j)| + if i < j then |Show(value)| - |Show(ElemAt(es, i).value)| else 0
  {
    hide Show, ShowLead, ShowTail;
    if i > 0 && j > 0 {
      WithValueBefore(es.rest, i - 1, value, j - 1);
    } else {
      WithValueText(true, es, i, value);
    }
  }

  /**
   * After a replacement every value that does not hold the replaced one is unchanged, and starts
   * where it did if it came before, or as much later as the text grew if it comes after.
   */
  lemma {:induction false} OffsetsShift(t: Tree, route: Route, value: Tree, other: Route, at: nat)
    requires HasRoute(t, route) && HasRoute(t, other) && (Precedes(route, other) || Precedes(other, route))
    ensures var t' := With(t, route, value);
      && HasRoute(t', other) && Sub(t', other) == Sub(t, other)
      && OffsetOf(t', other, at) == OffsetOf(t, other, at)
           + if Precedes(route, other) then |Show(value)| - |Show(Sub(t, route))| else 0
    decreases |route|
  {
    hide Show, LeadLen;
    var i, j := route[0], other[0];
    var inner := ElemAt(t.elems, i).value;
    var changed := With(inner, route[1..], value);
    var t' := With(t, route, value);
    LeadChanges(t, i, changed, j);
    if i == j {
      OffsetsShift(inner, route[1..], value, other[1..], at + LeadLen(t, i));
    } else {
      LengthChanges(inner, route[1..], value);
      OffsetMoves(ElemAt(t.elems, j).value, other[1..], at + LeadLen(t, j), at + LeadLen(t', j));
    }
  }

  lemma LeadChanges(t: Tree, i: nat, value: Tree, j: nat)
    requires t.Branch? && i < Size(t.elems) && j < Size(t.elems)
    ensures var t' := t.(elems := WithValue(t.elems, i, value));
      && j < Size(t'.elems)
      && ElemAt(t'.elems, j) == (if j == i then ElemAt(t.elems, i).(value := value) else ElemAt(t.elems, j))
      && LeadLen(t', j) == LeadLen(t, j) + if i < j then |Show(value)| - |Show(ElemAt(t.elems, i).value)| else 0
  {
    hide Show, ShowLead, Before, WithValue, ElemAt, Size;
    WithValueBefore(t.elems, i, value, j);
    WithValueText(true, t.elems, i, value);
  }

  lemma LengthChanges(t: Tree, route: Route, value: Tree)
    requires HasRoute(t, route)
    ensures |Show(With(t, route, value))| == |Show(t)| + |Show(value)| - |Show(Sub(t, route))|
  {
    hide Show;
    var p, e := InPlace([], t, route, value, []);
  }

  lemma {:induction false} OffsetMoves(t: Tree, route: Route, from: nat, to: nat)
    requires HasRoute(t, route)
    ensures OffsetOf(t, route, to) - to == OffsetOf(t, route, from) - from
    decreases |route|
  {
    hide LeadLen;
    if route != [] {
      OffsetMoves(ElemAt(t.elems, route[0]).value, route[1..], from + LeadLen(t, route[0]), to + LeadLen(t, route[0]));
    }
  }

  // ----- Print, then parse -----

  /**
   * What JSON.stringify writes, on one line or indented by any run of spaces and tabs, with its
   * line feeds replaced by either line ending and any indentation, parses to the value written.
   */
  lemma PrintedParses(j: Json, style: Style, indent: Text, inline: bool)
    requires IsStyle(style) && IsIndent(indent)
    ensures ParsedValue(Render(j, style, indent, inline)) == Some(Meaning(j))
  {
    hide Show, Formed, ReadDocument, ValueOf, Meaning, RenderedTree, Render, NodeOf;
    RenderedIsTree(j, style, indent, inline);
    AloneReads(RenderedTree(j, style, indent, inline));
  }
}
