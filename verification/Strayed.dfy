/** A member put inside a comment: a file an edit loses one in. */
module Strayed {
  import opened Units
  import opened Trivia
  import Strings
  import opened Scalars
  import opened Json
  import opened Values
  import opened Syntax
  import opened Nodes
  import opened Editor
  import opened TreeEdits
  import opened Appends
  import opened Layout
  import opened Commutes
  import opened Documents
  import opened JsonEdits
  import opened Strays

  const KEY: Text := [QUOTE, 97, QUOTE]
  /** A comment that opens slash-star-slash and goes over the end of its line. */
  const COMMENT: Text := [SLASH, STAR, SLASH, LF, STAR, SLASH]

  const ELEM: Elem := Elem(Keyed(KEY, [], []), Leaf(NULL), Plain(COMMENT))

  /** `{"a":null` and then the comment and the closing brace. */
  const FILE: Tree := Branch(true, [], More(ELEM, End))

  const MISSING: Text := [98]

  lemma KeyIs()
    ensures Strings.IsString(KEY) && Strings.Unquote(KEY) == [97]
  {
    assert KEY == Strings.Quote([97]);
    Strings.QuoteReadsBack([97]);
  }

  lemma CommentIs()
    ensures IsGap(COMMENT) && Skip(COMMENT[..3]).None?
  {
    assert CloseFrom(COMMENT, 4) == Some(4);
    assert CloseFrom(COMMENT, 3) == Some(4);
    assert CloseFrom(COMMENT, 2) == Some(4);
    assert COMMENT[6..] == [];
  }

  /** The whole file. */
  const TEXT: Text := [LBRACE, QUOTE, 97, QUOTE, COLON, 110, 117, 108, 108, SLASH, STAR, SLASH, LF, STAR, SLASH, RBRACE]

  lemma ElemIs()
    ensures FormedElem(true, ELEM) && ShowElem(ELEM) == KEY + [COLON] + NULL + COMMENT && KeyOf(ELEM.lead) == [97]
  {
    KeyIs();
    CommentIs();
    BlanksAreGap([]);
    assert Formed(Leaf(NULL)) && Show(Leaf(NULL)) == NULL;
  }

  lemma FileIs()
    ensures Show(FILE) == TEXT && Formed(FILE)
  {
    hide ShowElem, FormedElem;
    ElemIs();
    BlanksAreGap([]);
    var elems := More(ELEM, End);
    assert ShowElems(true, elems) == ShowElem(ELEM) + [RBRACE];
    assert FormedElems(true, elems);
  }

  lemma FileReads()
    ensures ReadDocument(TEXT) == Some(Document(0, FILE))
  {
    hide Show, Formed, ReadDocument;
    FileIs();
    assert IsOpening([]) && IsEnding([]);
    DocumentReads([], FILE, []);
    assert [] + Show(FILE) + [] == TEXT;
  }

  /** The search for the end of the comment finds the pair it opens with, and so the line's end inside it. */
  lemma LineEndsInside()
    ensures TriviaLineEnd(TEXT, 9, 9) == 12
  {
    assert IndentLen(TEXT, 9) == 0 && IndentLen(TEXT, 12) == 0;
    assert CloseFrom(TEXT, 10) == Some(10);
    assert CloseFrom(TEXT, 9) == Some(10);
    assert TEXT[9..][0] == SLASH && TEXT[9..][1] == STAR;
    assert TEXT[12..][0] == LF;
    assert TriviaLineEnd(TEXT, 9, 12) == 12;
  }

  const ROOT: Node := NodeOf(FILE, 0)

  lemma RootIs()
    ensures ROOT.members.Some? && ROOT.members.value != [] && ROOT.trailingComma.None?
    ensures Anchor(ROOT) == 9 && ROOT.start == 0 && ROOT.end == |TEXT| && Times(FILE.elems, MISSING) == 0
    ensures Matching(ROOT.members.value, MISSING) == []
  {
    hide Show, ShowElem, NodeOf, Matching, KeyOf, Anchor, ShowLead;
    FileIs();
    ElemIs();
    AnchorIs([], [], FILE.elems);
    UpToIs();
    MissingFound(FILE, 0, MISSING);
  }

  lemma UpToIs()
    ensures |UpToTrivia([], [], FILE.elems)| == 9 && LastElem(FILE.elems) == ELEM
  {
    assert Before(FILE.elems, 0) == [];
    assert Show(Leaf(NULL)) == NULL && ShowLead(ELEM.lead) == KEY + [] + [COLON] + [];
  }

  /** The member would go inside the comment. */
  lemma LandsInside()
    ensures ROOT.members.Some? && ROOT.members.value != []
    ensures !IsInline(TEXT, ROOT) && Landing(TEXT, ROOT) == 12 && Inside(TEXT, ROOT)
    ensures ParseSpec(TEXT) == Some(ROOT) && !Lands(TEXT, [MISSING])
  {
    hide NodeOf, Matching, Anchor, ReadDocument, Skip, TriviaLineEnd;
    RootIs();
    FileReads();
    LineEndsInside();
    CommentIs();
    assert TEXT[12] in Slice(TEXT, 0, |TEXT|);
    assert Slice(TEXT, 9, 12) == COMMENT[..3];
    assert !Clear(TEXT, ROOT);
  }

  lemma {:induction false} NoStar(s: Text, from: nat)
    requires STAR !in s
    ensures CloseFrom(s, from).None?
    decreases |s| - from
  {
    if from + 2 <= |s| {
      NoStar(s, from + 1);
    }
  }

  lemma NullRenders(style: Style, indent: Text)
    ensures STAR !in WrittenMember(MISSING, Render(Json.Null, style, indent, false))
  {
    assert Strings.Quote(MISSING) == [QUOTE, 98, QUOTE];
    assert Pretty(Json.Null, style.unit) == NULL;
    ReplaceNothing(NULL, style.eol + indent);
  }

  /** What is added holds no star. */
  lemma AddsNoStar(style: Style)
    requires IsStyle(style)
    ensures ROOT.members.Some? && ROOT.members.value != []
    ensures CloseFrom(Strays.AddedText(TEXT, style, ROOT, MISSING, Json.Null), 0).None?
  {
    hide NodeOf, LastIndent, IsInline, Render, WrittenMember, CloseFrom, Landing, Inside, Lands, ParseSpec;
    LandsInside();
    RootIs();
    LastIndentIsIndent(TEXT, style, ROOT);
    NullRenders(style, LastIndent(TEXT, style, ROOT));
    NoStar(Strays.AddedText(TEXT, style, ROOT, MISSING, Json.Null), 0);
  }

  /** The edit returns a text, but the member is lost in the comment: it parses to what the file held, not to the merge. */
  lemma MemberIsLost()
    ensures Upsert(TEXT, [MISSING], Json.Null, false).Some?
    ensures var before := ParsedValue(TEXT); var after := ParsedValue(Upsert(TEXT, [MISSING], Json.Null, false).value);
      && before.Some? && before.value.Obj? && after == before
      && after != Some(Value.Obj(Merged(before.value.fields, [MISSING], Meaning(Json.Null), false)))
  {
    hide NodeOf, Matching, ReadDocument, Strays.AddedText, Inside, Merged, Landing, Insert, CloseFrom;
    RootIs();
    LandsInside();
    var style := StyleOf(TEXT, ROOT);
    StyleIsStyle(TEXT, ROOT);
    AddsNoStar(style);
    var rest := [MISSING][1..];
    assert rest == [];
    assert Wrapped(rest, Json.Null) == Json.Null;
    assert StaysPut(TEXT, style, ROOT, [MISSING], Json.Null);
    assert UpsertIn(TEXT, style, ROOT, [MISSING], Json.Null, false).Some?;
    CommutesExactly(TEXT, [MISSING], Json.Null, false);
  }
}
