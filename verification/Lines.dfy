/** Lines and indentation of a text depend only on what stands on the line before an offset. */
module Lines {
  import opened Units
  import opened Syntax
  import opened Nodes
  import opened Editor
  import opened TreeEdits
  import opened Inserts
  import opened Appends

  lemma {:induction false} LineStartPrefix(a: Text, b: Text, offset: nat)
    requires offset <= |a|
    ensures LineStart(a + b, offset) == LineStart(a, offset)
  {
    if offset > 0 {
      assert (a + b)[offset - 1] == a[offset - 1];
      LineStartPrefix(a, b, offset - 1);
    }
  }

  /** The text after an offset has no say in its line. */
  lemma LinePrefix(a: Text, b: Text, offset: nat)
    requires offset <= |a|
    ensures LineIndent(a + b, offset) == LineIndent(a, offset)
    ensures StartsLine(a + b, offset) == StartsLine(a, offset)
  {
    hide LineStart, IndentLen, IsSpaces;
    LineStartPrefix(a, b, offset);
    var s := LineStart(a, offset);
    assert Slice(a + b, s, offset) == Slice(a, s, offset);
  }

  lemma {:induction false} LineStartShifted(x: Text, g: Text, offset: nat)
    requires offset <= |g| && LineStart(g, offset) > 0
    ensures LineStart(x + g, |x| + offset) == |x| + LineStart(g, offset)
  {
    if offset > 0 {
      assert (x + g)[|x| + offset - 1] == g[offset - 1];
      if g[offset - 1] != LF {
        LineStartShifted(x, g, offset - 1);
      }
    }
  }

  /** Nor does the text before a line feed that the line follows. */
  lemma LineShifted(x: Text, g: Text)
    requires LineStart(g, |g|) > 0
    ensures LineIndent(x + g, |x| + |g|) == LineIndent(g, |g|)
    ensures StartsLine(x + g, |x| + |g|) == StartsLine(g, |g|)
  {
    hide LineStart, LineIndent, StartsLine, Slice;
    LineStartShifted(x, g, |g|);
    SliceShifted(x, g, LineStart(g, |g|));
    SameLine(x + g, |x| + |g|, g, |g|);
  }

  lemma SameLine(a: Text, i: nat, b: Text, j: nat)
    requires Slice(a, LineStart(a, i), i) == Slice(b, LineStart(b, j), j)
    ensures LineIndent(a, i) == LineIndent(b, j) && StartsLine(a, i) == StartsLine(b, j)
  {
    hide LineStart, IndentLen, IsSpaces, Slice;
  }

  lemma SliceShifted(x: Text, g: Text, s: nat)
    ensures Slice(x + g, |x| + s, |x| + |g|) == Slice(g, s, |g|)
  {
  }

  lemma SpaceIn(text: Text, s: nat, e: nat, i: nat)
    requires s <= i < e <= |text| && IsSpaces(Slice(text, s, e))
    ensures IsSpace(text[i])
  {
    assert Slice(text, s, e)[i - s] == text[i];
  }

  lemma {:induction false} LineStartBack(text: Text, offset: nat, from: nat)
    requires from <= offset <= |text| && LF !in text[from..offset]
    ensures LineStart(text, offset) == LineStart(text, from)
  {
    if from < offset {
      assert text[from..offset][offset - 1 - from] == text[offset - 1];
      assert text[from..offset - 1] == text[from..offset][..offset - 1 - from];
      LineStartBack(text, offset - 1, from);
    }
  }

  /** A token on the line keeps what follows it from starting the line. */
  lemma TokenOnLine(x: Text, c: Unit, g: Text)
    requires c != LF && !IsSpace(c) && LineStart(g, |g|) == 0
    ensures !StartsLine(x + [c] + g, |x| + 1 + |g|)
  {
    hide IsSpace, LineStart, Slice, IsSpaces;
    var text := x + [c] + g;
    LineStartIs(g, |g|);
    assert g[0..|g|] == g;
    assert text[|x|..|text|] == [c] + g;
    LineStartBack(text, |text|, |x|);
    assert text[|x|] == c;
    if StartsLine(text, |text|) {
      SpaceIn(text, LineStart(text, |text|), |text|, |x|);
    }
  }

  // ----- The line a member starts, told from the trivia in front of it -----

  /** Whether what follows trivia `g` starts a line. */
  predicate GapStarts(g: Text) {
    LineStart(g, |g|) > 0 && StartsLine(g, |g|)
  }

  lemma GapStartsIs(x: Text, c: Unit, g: Text, rest: Text)
    requires c != LF && !IsSpace(c)
    ensures var at := |x| + 1 + |g|;
      && StartsLine(x + [c] + g + rest, at) == GapStarts(g)
      && (GapStarts(g) ==> LineIndent(x + [c] + g + rest, at) == LineIndent(g, |g|))
  {
    hide LineStart, StartsLine, LineIndent;
    var text := x + [c] + g;
    LinePrefix(text, rest, |text|);
    if LineStart(g, |g|) > 0 {
      LineShifted(x + [c], g);
    } else {
      TokenOnLine(x, c, g);
    }
  }

  /** The indentation of the first member that starts its line; `gap` is the trivia before the first member. */
  function UnitFrom(gap: Text, es: Elems): Option<Text>
    decreases es
  {
    match es
    case End => None
    case More(elem, rest) =>
      if GapStarts(gap) then Some(LineIndent(gap, |gap|)) else UnitFrom(LastTrivia(elem.tail), rest)
  }

  function IndentOf(text: Text, m: Option<Member>): Option<Text> {
    match m case None => None case Some(member) => Some(LineIndent(text, member.keyStart))
  }

  lemma {:induction false} FirstOnLineIs(x: Text, c: Unit, gap: Text, es: Elems, post: Text)
    requires c != LF && !IsSpace(c) && FormedElems(true, es)
    ensures var text := x + [c] + gap + (ShowElems(true, es) + post);
      IndentOf(text, FirstOnLine(text, MembersOf(es, |x| + 1 + |gap|))) == UnitFrom(gap, es)
    decreases es
  {
    hide GapStarts, StartsLine, LineIndent, IsSpace, ShowLead, Show, FormedLead, Formed, FormedTail, ShowElem, ShowTail, MemberOf;
    if es.More? {
      var text := x + [c] + gap + (ShowElems(true, es) + post);
      var at := |x| + 1 + |gap|;
      GapStartsIs(x, c, gap, ShowElems(true, es) + post);
      KeyStartIs(es.elem, at);
      FirstStep(text, MemberOf(es.elem, at), MembersOf(es.rest, at + |ShowElem(es.elem)|));
      if es.rest.More? {
        var tail := es.elem.tail;
        CommaIsSpaceless();
        NextGap(x + [c] + gap, es.elem, ShowElems(true, es.rest) + post);
        Assoc(ShowElem(es.elem), ShowElems(true, es.rest), post);
        ElemLength(es.elem);
        FirstOnLineIs(x + [c] + gap + ShowLead(es.elem.lead) + Show(es.elem.value) + tail.before, COMMA, tail.after, es.rest, post);
      }
    }
  }

  lemma FirstStep(text: Text, m: Member, rest: seq<Member>)
    ensures FirstOnLine(text, [m] + rest) == if StartsLine(text, m.keyStart) then Some(m) else FirstOnLine(text, rest)
    ensures FirstOnLine(text, []) == None
  {
    assert ([m] + rest)[1..] == rest;
  }

  lemma KeyStartIs(elem: Elem, at: nat)
    ensures MemberOf(elem, at).keyStart == at
  {
  }

  lemma CommaIsSpaceless()
    ensures COMMA != LF && !IsSpace(COMMA) && LBRACE != LF && !IsSpace(LBRACE)
  {
  }

  lemma ElemLength(elem: Elem)
    requires elem.tail.Comma?
    ensures |ShowElem(elem)| == |ShowLead(elem.lead)| + |Show(elem.value)| + |elem.tail.before| + 1 + |elem.tail.after|
  {
  }

  /** The text up to a comma, the comma, the trivia after it, and the rest. */
  lemma NextGap(q: Text, elem: Elem, z: Text)
    requires elem.tail.Comma?
    ensures q + (ShowElem(elem) + z)
         == q + ShowLead(elem.lead) + Show(elem.value) + elem.tail.before + [COMMA] + elem.tail.after + z
  {
    hide ShowLead, Show;
    var l, v, b, a := ShowLead(elem.lead), Show(elem.value), elem.tail.before, elem.tail.after;
    assert ShowElem(elem) == l + v + (b + [COMMA] + a);
    Assoc(q, ShowElem(elem), z);
    Assoc(q, l + v, b + [COMMA] + a);
    Assoc(q, l, v);
    Assoc(q + l + v, b + [COMMA], a);
    Assoc(q + l + v, b, [COMMA]);
  }

  // ----- How an edit of the root changes the first member on a line -----

  lemma {:induction false} UnitWithValue(gap: Text, es: Elems, i: nat, value: Tree)
    requires i < Size(es)
    ensures UnitFrom(gap, WithValue(es, i, value)) == UnitFrom(gap, es)
    decreases es
  {
    hide GapStarts, LineIndent;
    if i > 0 {
      UnitWithValue(LastTrivia(es.elem.tail), es.rest, i - 1, value);
    }
  }

  /** A member added last is the first on a line only if no other is. */
  lemma {:induction false} UnitExtended(gap: Text, es: Elems, tail: Tail, added: Elem)
    requires es.More? && tail.Comma?
    ensures UnitFrom(gap, Extended(es, tail, added)) ==
      if UnitFrom(gap, es).Some? then UnitFrom(gap, es)
      else if GapStarts(tail.after) then Some(LineIndent(tail.after, |tail.after|)) else None
    decreases es
  {
    hide GapStarts, LineIndent;
    if es.rest.More? {
      UnitExtended(LastTrivia(es.elem.tail), es.rest, tail, added);
    } else {
      var more := More(added, End);
      assert UnitFrom(tail.after, more) ==
        if GapStarts(tail.after) then Some(LineIndent(tail.after, |tail.after|)) else None;
    }
  }
}
