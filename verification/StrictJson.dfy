/** `JSON.parse`: the texts JSONC allows that hold no comment, trailing comma or byte order mark. */
module StrictJson {
  import opened Units
  import opened Trivia
  import Strings
  import opened Values
  import opened Syntax
  import opened Nodes
  import opened Documents
  import opened Locality
  import Json

  predicate IsBlanks(s: Text) {
    Json.IsBlanks(s)
  }

  predicate Strict(t: Tree) {
    t.Leaf? || (IsBlanks(t.head) && StrictElems(t.elems))
  }

  predicate StrictElems(elems: Elems) {
    match elems
    case End => true
    case More(elem, rest) =>
      && (elem.lead.Keyed? ==> IsBlanks(elem.lead.gap) && IsBlanks(elem.lead.pad))
      && Strict(elem.value)
      && IsBlanks(elem.tail.before) && (elem.tail.Comma? ==> IsBlanks(elem.tail.after) && rest != End)
      && StrictElems(rest)
  }

  /** What JSON.parse returns; None when it throws. */
  function Parse(text: Text): Option<Value> {
    match ReadDocument(text)
    case None => None
    case Some(d) =>
      DocumentIs(text, d);
      if IsBlanks(text[..d.start]) && Strict(d.tree) && IsBlanks(text[d.start + |Show(d.tree)|..]) then Some(ValueOf(d.tree))
      else None
  }

  lemma TreeParses(t: Tree)
    requires Formed(t) && Strict(t)
    ensures Parse(Show(t)) == Some(ValueOf(t))
  {
    hide Show, Formed, Strict, ReadDocument;
    AloneReads(t);
  }

  lemma QuoteParses(s: Text)
    ensures Parse(Strings.Quote(s)) == Some(Str(s))
  {
    QuoteIsLeaf(s);
    TreeParses(Leaf(Strings.Quote(s)));
  }

  // ----- A list of strings, written on one line -----

  /** `list.map(JSON.stringify).join(", ")`, closed. */
  function ListRest(list: seq<Text>): Text {
    if list == [] then [RBRACKET]
    else Strings.Quote(list[0]) + (if |list| == 1 then [] else [COMMA, SPACE]) + ListRest(list[1..])
  }

  function List(list: seq<Text>): Text {
    [LBRACKET] + ListRest(list)
  }

  function ListElems(list: seq<Text>): Elems {
    if list == [] then End
    else
      More(
        Elem(Syntax.Bare, Leaf(Strings.Quote(list[0])), Separator(|list| == 1)),
        ListElems(list[1..]))
  }

  function Separator(last: bool): Tail {
    if last then Plain([]) else Comma([], [SPACE])
  }

  lemma SeparatorIs(last: bool)
    ensures ShowTail(Separator(last)) == if last then [] else [COMMA, SPACE]
    ensures FormedTail(Separator(last)) && IsBlanks(Separator(last).before)
    ensures !last ==> IsBlanks(Separator(last).after)
  {
    Json.BlanksAreGap([]);
    Json.BlanksAreGap([SPACE]);
  }

  lemma QuoteIsLeaf(s: Text)
    ensures var leaf := Leaf(Strings.Quote(s));
      Show(leaf) == Strings.Quote(s) && Formed(leaf) && ValueOf(leaf) == Str(s) && Strict(leaf)
  {
    Strings.QuoteReadsBack(s);
  }

  lemma {:induction false} ListShown(list: seq<Text>)
    ensures ShowElems(false, ListElems(list)) == ListRest(list)
    ensures FormedElems(false, ListElems(list)) && StrictElems(ListElems(list))
  {
    hide Strings.Quote, Show, Formed, Strict, IsBlanks, FormedTail, ShowTail;
    if list != [] {
      ListShown(list[1..]);
      QuoteIsLeaf(list[0]);
      SeparatorIs(|list| == 1);
    }
  }

  lemma {:induction false} ListItems(list: seq<Text>)
    ensures ItemsOf(ListElems(list)) == seq(|list|, i requires 0 <= i < |list| => Str(list[i]))
  {
    hide Strings.Quote, ValueOf;
    if list != [] {
      ListItems(list[1..]);
      QuoteIsLeaf(list[0]);
    }
  }

  lemma ListParses(list: seq<Text>)
    ensures Parse(List(list)) == Some(Arr(seq(|list|, i requires 0 <= i < |list| => Str(list[i]))))
  {
    ListShown(list);
    ListItems(list);
    Json.BlanksAreGap([]);
    var t := Branch(false, [], ListElems(list));
    assert Show(t) == List(list) by {
      assert [Opener(false)] + [] + ListRest(list) == [LBRACKET] + ListRest(list);
    }
    TreeParses(t);
  }

  // ----- Exactly the texts of section 2 of RFC 8259 -----

  predicate AreBlank(s: Text) {
    forall i :: 0 <= i < |s| ==> s[i] == 0x20 || s[i] == 0x09 || s[i] == 0x0A || s[i] == 0x0D
  }

  /** All that stands between the tokens of a value. */
  function Gaps(t: Tree): seq<Text> {
    match t
    case Leaf(_) => []
    case Branch(_, head, elems) => [head] + GapsIn(elems)
  }

  function GapsIn(elems: Elems): seq<Text> {
    match elems
    case End => []
    case More(elem, rest) =>
      (if elem.lead.Keyed? then [elem.lead.gap, elem.lead.pad] else []) + Gaps(elem.value)
      + ([elem.tail.before] + if elem.tail.Comma? then [elem.tail.after] else []) + GapsIn(rest)
  }

  /** Somewhere in it a comma stands before a closing bracket. */
  predicate Trails(t: Tree) {
    t.Branch? && TrailsIn(t.elems)
  }

  predicate TrailsIn(elems: Elems) {
    elems.More? && (Trails(elems.elem.value) || (elems.elem.tail.Comma? && elems.rest.End?) || TrailsIn(elems.rest))
  }

  predicate AllBlank(gaps: seq<Text>) {
    forall i :: 0 <= i < |gaps| ==> AreBlank(gaps[i])
  }

  lemma AllBlankOn(a: seq<Text>, b: seq<Text>)
    ensures AllBlank(a + b) <==> AllBlank(a) && AllBlank(b)
  {
    hide AreBlank;
    var all := a + b;
    assert forall i :: 0 <= i < |a| ==> all[i] == a[i];
    assert forall i :: 0 <= i < |b| ==> all[|a| + i] == b[i];
  }

  lemma AllBlankOne(gap: Text)
    ensures AllBlank([gap]) <==> IsBlanks(gap)
  {
    assert [gap][0] == gap;
  }

  lemma AllBlankTwo(a: Text, b: Text)
    ensures AllBlank([a, b]) <==> IsBlanks(a) && IsBlanks(b)
  {
    assert [a, b][0] == a && [a, b][1] == b;
  }

  lemma {:induction false} StrictIs(t: Tree)
    ensures Strict(t) <==> AllBlank(Gaps(t)) && !Trails(t)
  {
    hide IsBlanks, AllBlank;
    match t
    case Leaf(_) => AllBlankNone();
    case Branch(_, head, elems) =>
      AllBlankOn([head], GapsIn(elems));
      AllBlankOne(head);
      ElemsStrict(elems);
  }

  lemma AllBlankNone()
    ensures AllBlank([])
  {
  }

  lemma {:induction false} ElemsStrict(elems: Elems)
    ensures StrictElems(elems) <==> AllBlank(GapsIn(elems)) && !TrailsIn(elems)
  {
    hide IsBlanks, AllBlank, Strict, Gaps, Trails;
    AllBlankNone();
    if elems.More? {
      var elem := elems.elem;
      var lead := if elem.lead.Keyed? then [elem.lead.gap, elem.lead.pad] else [];
      var tail := [elem.tail.before] + if elem.tail.Comma? then [elem.tail.after] else [];
      StrictIs(elem.value);
      ElemsStrict(elems.rest);
      AllBlankOn(lead + Gaps(elem.value) + tail, GapsIn(elems.rest));
      AllBlankOn(lead + Gaps(elem.value), tail);
      AllBlankOn(lead, Gaps(elem.value));
      TailStrict(elem.tail);
      if elem.lead.Keyed? {
        AllBlankTwo(elem.lead.gap, elem.lead.pad);
      }
    }
  }

  lemma TailStrict(tail: Tail)
    ensures AllBlank([tail.before] + if tail.Comma? then [tail.after] else [])
      <==> IsBlanks(tail.before) && (tail.Comma? ==> IsBlanks(tail.after))
  {
    hide IsBlanks, AllBlank;
    AllBlankOne(tail.before);
    if tail.Comma? {
      AllBlankTwo(tail.before, tail.after);
      assert [tail.before] + [tail.after] == [tail.before, tail.after];
    } else {
      assert [tail.before] + [] == [tail.before];
    }
  }

  /** A text with nothing but blanks between its tokens and around its value, and no comma before a closing bracket. */
  ghost predicate IsText(text: Text, a: Text, t: Tree, b: Text) {
    && text == a + Show(t) + b && Formed(t)
    && AreBlank(a) && AreBlank(b) && AllBlank(Gaps(t)) && !Trails(t)
  }

  /** Exactly such a text is parsed, to its value. */
  lemma ParsesExactly(text: Text, value: Value)
    ensures Parse(text) == Some(value) <==> exists a, t, b :: IsText(text, a, t, b) && ValueOf(t) == value
  {
    hide Show, Formed, Strict, ReadDocument, AllBlank, Gaps, Trails, ValueOf;
    if Parse(text) == Some(value) {
      var d := ReadDocument(text).value;
      DocumentIs(text, d);
      StrictIs(d.tree);
      assert IsText(text, text[..d.start], d.tree, text[d.start + |Show(d.tree)|..]);
    }
    if a, t, b :| IsText(text, a, t, b) && ValueOf(t) == value {
      StrictIs(t);
      BlanksAround(a, b);
      DocumentReads(a, t, b);
      assert text[..|a|] == a && text[|a| + |Show(t)|..] == b;
    }
  }

  lemma BlanksAround(a: Text, b: Text)
    requires AreBlank(a) && AreBlank(b)
    ensures IsOpening(a) && IsEnding(b)
  {
    hide IsGap, Skip;
    Json.BlanksAreGap(a);
    Json.BlanksAreGap(b);
    GapSkips(b);
  }

  lemma GapSkips(b: Text)
    requires IsGap(b)
    ensures Skip(b) == Some(|b|)
  {
  }
}
