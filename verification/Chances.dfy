/**
 * Why exactness needs an added text that closes no comment: an edit that does not land, whose
 * key ends the comment it is put in, and whose file parses to the merge all the same.
 */
module Chances {
  import opened Units
  import opened Trivia
  import Strings
  import opened Scalars
  import opened Json
  import opened Values
  import opened Syntax
  import opened Nodes
  import opened Editor
  import opened TreeEdits
  import opened Appends
  import opened Commutes
  import opened Documents
  import opened JsonEdits
  import opened Lines
  import Endings
  import Twice

  const ONE: Text := [49]
  /** A colon and a space, as a key. */
  const FIRST: Text := [COLON, SPACE]
  const FIRST_TOKEN: Text := [QUOTE, COLON, SPACE, QUOTE]
  /** A star and a slash: the added key, as JSON.stringify writes it, and as the file has it. */
  const ADDED: Text := [STAR, SLASH]
  const ADDED_TOKEN: Text := [QUOTE, STAR, SLASH, QUOTE]
  const ESCAPED_TOKEN: Text := [QUOTE, STAR, BACKSLASH, SLASH, QUOTE]
  /** The added value: a colon, a one, and what opens a line comment. */
  const VALUE: Text := [COLON, 49, SPACE, SLASH, SLASH]
  const VALUE_TOKEN: Text := [QUOTE, COLON, 49, SPACE, SLASH, SLASH, QUOTE]

  /** The comment opens slash-star-slash. */
  const OPEN: Text := [SPACE, SLASH, STAR, SLASH]
  const CLOSE: Text := [SPACE, SLASH, SLASH, SPACE, STAR, SLASH, SPACE]
  /** What the comment holds: the rest of the merge. */
  const HELD: Text := [LF, COMMA, SPACE] + ESCAPED_TOKEN + [COLON, SPACE] + VALUE_TOKEN + [RBRACE]
  const GAP: Text := OPEN + (HELD + CLOSE)

  const ELEM: Elem := Elem(Keyed(FIRST_TOKEN, [], [SPACE]), Leaf(ONE), Plain(GAP))
  const FILE: Tree := Branch(true, [], More(ELEM, End))
  const TEXT: Text := Show(FILE)

  // ----- Tokens -----

  lemma Tokens()
    ensures Strings.Quote(FIRST) == FIRST_TOKEN && Strings.Quote(ADDED) == ADDED_TOKEN && Strings.Quote(VALUE) == VALUE_TOKEN
  {
    assert Strings.Escape(FIRST[2..]) == [] && Strings.Escape(FIRST[1..]) == [SPACE];
    assert Strings.Escape(ADDED[2..]) == [] && Strings.Escape(ADDED[1..]) == [SLASH];
    var v := VALUE;
    assert Strings.Escape(v[5..]) == [];
    assert Strings.Escape(v[4..]) == [SLASH];
    assert Strings.Escape(v[3..]) == [SLASH, SLASH];
    assert Strings.Escape(v[2..]) == [SPACE, SLASH, SLASH];
    assert Strings.Escape(v[1..]) == [49, SPACE, SLASH, SLASH];
  }

  lemma EscapedIs()
    ensures Strings.IsString(ESCAPED_TOKEN) && Strings.Unquote(ESCAPED_TOKEN) == ADDED
  {
    var body := [STAR, BACKSLASH, SLASH];
    assert ESCAPED_TOKEN[1..4] == body;
    var escape: Text := [BACKSLASH, SLASH];
    assert body[1..] == escape && escape[2..] == [];
    assert Strings.ShortEscape(escape[1]) == Some(SLASH);
    assert Strings.Unescape(escape[2..]) == Some([]);
    var none: Text := [];
    assert [SLASH] + none == [SLASH];
    assert Strings.Unescape(escape) == Some([SLASH]);
    assert [STAR] + [SLASH] == [STAR, SLASH];
    assert Strings.Unescape(body) == Some([STAR, SLASH]);
  }

  lemma OneIs()
    ensures Formed(Leaf(ONE)) && ValueOf(Leaf(ONE)) == Value.Num(ONE)
  {
    assert ONE[1..] == [];
    assert IntLen(ONE) == Some(1);
  }

  // ----- Trivia -----

  lemma {:induction false} CloseAt(s: Text, from: nat, at: nat)
    requires from <= at && at + 2 <= |s| && s[at] == STAR && s[at + 1] == SLASH
    requires forall i :: from <= i < at ==> s[i] != STAR || s[i + 1] != SLASH
    ensures CloseFrom(s, from) == Some(at)
    decreases at - from
  {
    if from < at {
      CloseAt(s, from + 1, at);
    }
  }

  /** A blank, and then a block comment closed by its last pair. */
  lemma CommentGap(s: Text)
    requires |s| >= 5 && s[0] == SPACE && s[1] == SLASH && s[2] == STAR && s[|s| - 2] == STAR && s[|s| - 1] == SLASH
    requires forall i :: 3 <= i < |s| - 2 ==> s[i] != STAR || s[i + 1] != SLASH
    ensures IsGap(s)
  {
    var c := s[1..];
    forall i | 2 <= i < |c| - 2
      ensures c[i] != STAR || c[i + 1] != SLASH
    {
      assert c[i] == s[i + 1] && c[i + 1] == s[i + 2];
    }
    CloseAt(c, 2, |c| - 2);
    assert FirstPiece(c) == Piece(|c|);
    assert c[|c|..] == [];
    assert IsGap(c);
    assert FirstPiece(s) == Piece(1);
  }

  const COMMENT: Text := OPEN + HELD + [SPACE, SLASH, SLASH, SPACE, STAR, SLASH]

  lemma CommentUnits()
    ensures COMMENT == [SPACE, SLASH, STAR, SLASH, LF, COMMA, SPACE, QUOTE, STAR, BACKSLASH, SLASH, QUOTE, COLON, SPACE,
      QUOTE, COLON, 49, SPACE, SLASH, SLASH, QUOTE, RBRACE, SPACE, SLASH, SLASH, SPACE, STAR, SLASH]
  {
  }

  lemma NoPair()
    ensures forall i :: 3 <= i < 26 ==> COMMENT[i] != STAR || COMMENT[i + 1] != SLASH
    ensures |COMMENT| == 28 && COMMENT[0] == SPACE && COMMENT[1] == SLASH && COMMENT[2] == STAR
    ensures COMMENT[26] == STAR && COMMENT[27] == SLASH
  {
    hide COMMENT;
    CommentUnits();
  }

  lemma GapIs()
    ensures IsGap(GAP)
  {
    hide COMMENT, GAP, IsGap;
    NoPair();
    CommentGap(COMMENT);
    BlanksAreGap([SPACE]);
    GapsJoin(COMMENT, [SPACE]);
    GapParts();
  }

  lemma GapParts()
    ensures GAP == COMMENT + [SPACE]
  {
  }

  // ----- The file -----

  lemma KeyIs(key: Text, token: Text, gap: Text, pad: Text)
    requires Strings.IsString(token) && Strings.Unquote(token) == key && IsGap(gap) && IsGap(pad)
    ensures FormedLead(true, Keyed(token, gap, pad)) && KeyOf(Keyed(token, gap, pad)) == key
  {
  }

  lemma Blank()
    ensures IsGap([]) && IsGap([SPACE])
  {
    BlanksAreGap([]);
    BlanksAreGap([SPACE]);
  }

  lemma FirstIs(pad: Text, tail: Tail)
    requires IsGap(pad) && FormedTail(tail)
    ensures var e := Elem(Keyed(FIRST_TOKEN, [], pad), Leaf(ONE), tail); FormedElem(true, e) && KeyOf(e.lead) == FIRST
  {
    hide IsGap, FormedLeaf, Strings.IsString, Strings.Unquote, KeyOf;
    Blank();
    Tokens();
    Strings.QuoteReadsBack(FIRST);
    KeyIs(FIRST, FIRST_TOKEN, [], pad);
    OneIs();
  }

  lemma FileIs()
    ensures Formed(FILE) && FieldsOf(FILE.elems, map[]) == map[FIRST := Value.Num(ONE)] && Times(FILE.elems, ADDED) == 0
  {
    hide IsGap, FormedElem, KeyOf, ValueOf;
    Blank();
    GapIs();
    FirstIs([SPACE], Plain(GAP));
    OneIs();
    OneField(ELEM);
    assert FormedElems(true, FILE.elems);
    assert FIRST != ADDED;
  }

  lemma FileReads()
    ensures ReadDocument(TEXT) == Some(Document(0, FILE))
  {
    hide Show, Formed, ReadDocument;
    FileIs();
    assert IsOpening([]) && IsEnding([]);
    DocumentReads([], FILE, []);
    assert [] + Show(FILE) + [] == TEXT;
  }

  const ROOT: Node := NodeOf(FILE, 0)

  /** `{": ": 1` */
  const UP_TO: Text := [LBRACE, QUOTE, COLON, SPACE, QUOTE, COLON, SPACE, 49]

  lemma UpToIs()
    ensures UpToTrivia([], [], FILE.elems) == UP_TO && LastElem(FILE.elems) == ELEM
    ensures TEXT == UP_TO + (GAP + [RBRACE])
  {
    assert Before(FILE.elems, 0) == [];
    assert Show(Leaf(ONE)) == ONE && ShowLead(ELEM.lead) == FIRST_TOKEN + [] + [COLON] + [SPACE];
    ObjectText([], [], FILE.elems, []);
    assert [] + Show(FILE) + [] == TEXT;
  }

  lemma RootIs()
    ensures ROOT.members.Some? && ROOT.members.value != [] && ROOT.trailingComma.None?
    ensures Anchor(ROOT) == 8 && ROOT.start == 0 && ROOT.end == |TEXT| && Matching(ROOT.members.value, ADDED) == []
  {
    hide Show, NodeOf, Matching, KeyOf, Anchor;
    FileIs();
    AnchorIs([], [], FILE.elems);
    UpToIs();
    MissingFound(FILE, 0, ADDED);
  }

  // ----- The landing -----

  lemma LandsInComment()
    ensures ROOT.members.Some? && ROOT.members.value != []
    ensures !IsInline(TEXT, ROOT) && Landing(TEXT, ROOT) == 12 && !Clear(TEXT, ROOT)
  {
    hide NodeOf, Anchor, Show, GAP, HELD, TriviaLineEnd, Skip;
    RootIs();
    UpToIs();
    HeldBegins();
    var text := UP_TO + (GAP + [RBRACE]);
    assert text[12] == LF && text[9] == SLASH && text[10] == STAR && text[11] == SLASH && text[8] == SPACE;
    LineEnds(text);
    assert text[12] in Slice(text, 0, |text|);
    assert Slice(text, 8, 12) == OPEN;
    OpenIsUnclosed();
  }

  lemma LineEnds(text: Text)
    requires |text| > 13 && text[8] == SPACE && text[9] == SLASH && text[10] == STAR && text[11] == SLASH && text[12] == LF
    ensures TriviaLineEnd(text, 8, 8) == 12
  {
    hide LineStop;
    assert IndentLen(text, 9) == 0 && IndentLen(text, 12) == 0;
    assert IndentLen(text, 8) == 1;
    assert CloseFrom(text, 10) == Some(10);
    assert CloseFrom(text, 9) == Some(10);
    assert text[9..][0] == SLASH && text[9..][1] == STAR;
    assert text[12..][0] == LF;
    StopsThere(text);
    assert TriviaLineEnd(text, 8, 12) == 12;
    assert LF !in text[9..10];
  }

  lemma StopsThere(text: Text)
    requires |text| > 13 && text[11] == SLASH && text[12] == LF
    ensures LineStop(text, 8, 12) == 12
  {
  }

  lemma HeldBegins()
    ensures |GAP| > 5 && GAP[..4] == OPEN && GAP[4] == LF
  {
  }

  lemma OpenIsUnclosed()
    ensures Skip(OPEN).None?
  {
    assert OPEN[1..] == [SLASH, STAR, SLASH];
    assert CloseFrom(OPEN[1..], 2).None?;
    assert FirstPiece(OPEN[1..]).Unclosed?;
  }

  // ----- The edited text -----

  const STYLE: Style := Style([LF], [SPACE, SPACE])

  lemma NoReturns()
    ensures CR !in TEXT
  {
    hide Show;
    UpToIs();
    assert CR !in UP_TO && CR !in OPEN && CR !in HELD && CR !in CLOSE;
  }

  lemma StyleIs()
    ensures ROOT.members.Some? && StyleOf(TEXT, ROOT) == STYLE
    ensures ROOT.members.value != [] && LastIndent(TEXT, STYLE, ROOT) == [SPACE, SPACE]
  {
    hide Show, NodeOf, GAP, LineIndent, Formed, HasCrLf, UnitFrom, FIRST_TOKEN, ONE, TEXT, StyleOf, LastIndent;
    FileIs();
    NoReturns();
    Endings.NoReturn(TEXT);
    NoUnit();
    Twice.StyleIs([], FILE, []);
    Twice.StepsIn([], [], FILE.elems, [], STYLE);
    Alone();
    NoIndent(TEXT);
    NoIndent([]);
  }

  lemma Alone()
    ensures [] + Show(FILE) + [] == TEXT
  {
    hide Show;
  }

  lemma NoIndent(text: Text)
    ensures LineIndent(text, 0) == []
  {
  }

  lemma NoUnit()
    ensures UnitFrom([], FILE.elems) == None
  {
    assert !GapStarts([]);
    assert FILE.elems.rest == End;
  }

  const G1: Text := OPEN + [LF, SPACE, SPACE, QUOTE, STAR, SLASH]
  const E1: Elem := Elem(Keyed(FIRST_TOKEN, [], [SPACE]), Leaf(ONE), Comma([], G1))
  const G2: Text := [SPACE, SLASH, SLASH, QUOTE, LF]
  const E2: Elem := Elem(Keyed(FIRST_TOKEN, [], []), Leaf(ONE), Comma(G2, [SPACE]))
  const E3: Elem := Elem(Keyed(ESCAPED_TOKEN, [], [SPACE]), Leaf(VALUE_TOKEN), Plain([]))
  const AFTER: Tree := Branch(true, [], More(E1, More(E2, More(E3, End))))
  const ENDING: Text := CLOSE + [RBRACE]
  const NEXT: Text := UP_TO + [COMMA] + OPEN + ([LF, SPACE, SPACE] + (ADDED_TOKEN + [COLON, SPACE] + VALUE_TOKEN)) + (HELD + (CLOSE + [RBRACE]))

  lemma Edited()
    ensures Upsert(TEXT, [ADDED], Json.Str(VALUE), false) == Some(NEXT)
  {
    hide Show, NodeOf, ReadDocument, IsInline, Landing, Anchor, LastIndent, InsertLast, StyleOf, Matching, HELD, CLOSE, TEXT, UP_TO, OPEN;
    FileReads();
    RootIs();
    UpToIs();
    LandsInComment();
    StyleIs();
    var data := Json.Str(VALUE);
    var rest := [ADDED][1..];
    assert rest == [];
    assert Wrapped(rest, data) == data;
    LengthsAre();
    Assoc(OPEN, HELD + CLOSE, [RBRACE]);
    Assoc(HELD, CLOSE, [RBRACE]);
    SplicedParts(TEXT, STYLE, ROOT, ADDED, data, UP_TO, OPEN, HELD + (CLOSE + [RBRACE]));
    Written([SPACE, SPACE]);
    assert [LF] + [SPACE, SPACE] == [LF, SPACE, SPACE];
    var member := WrittenMember(ADDED, Render(data, STYLE, [SPACE, SPACE], false));
    var none: Text := [];
    assert [LF, SPACE, SPACE] + member + none == [LF, SPACE, SPACE] + member;
  }

  lemma LengthsAre()
    ensures |UP_TO| == 8 && |OPEN| == 4
  {
  }

  lemma Written(indent: Text)
    ensures WrittenMember(ADDED, Render(Json.Str(VALUE), STYLE, indent, false)) == ADDED_TOKEN + [COLON, SPACE] + VALUE_TOKEN
  {
    hide Strings.Quote, ReplaceLines;
    Tokens();
    ReplaceNothing(VALUE_TOKEN, STYLE.eol + indent);
  }

  // ----- What it parses to -----

  lemma E1Is()
    ensures FormedElem(true, E1) && KeyOf(E1.lead) == FIRST
    ensures ShowElem(E1) == FIRST_TOKEN + [COLON, SPACE] + ONE + [COMMA] + G1
  {
    hide IsGap, FormedElem, KeyOf;
    assert G1 == [SPACE, SLASH, STAR, SLASH, LF, SPACE, SPACE, QUOTE, STAR, SLASH];
    CommentGap(G1);
    Blank();
    FirstIs([SPACE], Comma([], G1));
  }

  lemma E2Is()
    ensures FormedElem(true, E2) && KeyOf(E2.lead) == FIRST
    ensures ShowElem(E2) == FIRST_TOKEN + [COLON] + ONE + G2 + [COMMA, SPACE]
  {
    hide IsGap, FormedElem, KeyOf;
    LineGap();
    Blank();
    FirstIs([], Comma(G2, [SPACE]));
  }

  lemma LineGap()
    ensures IsGap(G2)
  {
    var c: Text := [SLASH, SLASH, QUOTE, LF];
    assert G2[1..] == c;
    assert c[1..] == [SLASH, QUOTE, LF] && c[2..] == [QUOTE, LF] && c[3..] == [LF];
    FindIn([SLASH, SLASH, QUOTE], [LF], LF);
    assert c == [SLASH, SLASH, QUOTE] + [LF];
    assert Find([LF], LF) == 0;
    assert FirstPiece(c) == Piece(3);
    assert IsGap(c[3..]) by { BlanksAreGap([LF]); }
  }

  lemma E3Is()
    ensures FormedElem(true, E3) && KeyOf(E3.lead) == ADDED && ValueOf(E3.value) == Value.Str(VALUE)
    ensures ShowElem(E3) == ESCAPED_TOKEN + [COLON, SPACE] + VALUE_TOKEN
  {
    hide IsGap, Strings.IsString, Strings.Unquote;
    Blank();
    EscapedIs();
    Tokens();
    Strings.QuoteReadsBack(VALUE);
  }

  lemma AfterIs()
    ensures Formed(AFTER) && Show(AFTER) + ENDING == NEXT
  {
    hide IsGap, FormedElem, ShowElem;
    E1Is();
    E2Is();
    E3Is();
    Blank();
    assert FormedElems(true, More(E3, End));
    assert FormedElems(true, More(E2, More(E3, End)));
    AfterShown();
  }

  lemma AfterShown()
    ensures Show(AFTER) == [LBRACE] + (ShowElem(E1) + (ShowElem(E2) + (ShowElem(E3) + [RBRACE])))
    ensures Show(AFTER) + ENDING == NEXT
  {
    hide ShowElem, FormedElem, KeyOf, ValueOf, OPEN, CLOSE, UP_TO, HELD, FIRST_TOKEN, ONE, ADDED_TOKEN, VALUE_TOKEN, ESCAPED_TOKEN, G1, G2, NEXT, ENDING;
    E1Is();
    E2Is();
    E3Is();
    assert ShowElems(true, More(E3, End)) == ShowElem(E3) + [RBRACE];
    assert ShowElems(true, More(E2, More(E3, End))) == ShowElem(E2) + (ShowElem(E3) + [RBRACE]);
    SameUnits();
  }

  /** The parts of the tree's text, one after another, are those of the edited text. */
  lemma SameUnits()
    ensures [LBRACE] + (FIRST_TOKEN + [COLON, SPACE] + ONE + [COMMA] + G1
      + (FIRST_TOKEN + [COLON] + ONE + G2 + [COMMA, SPACE] + (ESCAPED_TOKEN + [COLON, SPACE] + VALUE_TOKEN + [RBRACE]))) + ENDING == NEXT
  {
    hide OPEN, CLOSE, UP_TO, HELD, FIRST_TOKEN, ONE, ADDED_TOKEN, VALUE_TOKEN, ESCAPED_TOKEN;
    var x, m1, m3: Text := [LF, SPACE, SPACE], [QUOTE, STAR, SLASH], [SPACE, SLASH, SLASH, QUOTE];
    var h := ESCAPED_TOKEN + [COLON, SPACE] + VALUE_TOKEN + [RBRACE];
    Pieces();
    assert G1 == OPEN + (x + m1) && G2 == m3 + [LF];
    Regrouped(FIRST_TOKEN + [COLON, SPACE] + ONE, OPEN, x, m1, FIRST_TOKEN + [COLON] + ONE, m3, h, ENDING);
  }

  lemma Pieces()
    ensures [LBRACE] + (FIRST_TOKEN + [COLON, SPACE] + ONE) == UP_TO
    ensures [QUOTE, STAR, SLASH] + (FIRST_TOKEN + [COLON] + ONE) + [SPACE, SLASH, SLASH, QUOTE] == ADDED_TOKEN + [COLON, SPACE] + VALUE_TOKEN
    ensures [LF] + [COMMA, SPACE] + (ESCAPED_TOKEN + [COLON, SPACE] + VALUE_TOKEN + [RBRACE]) == HELD
  {
    hide ESCAPED_TOKEN;
  }

  lemma Regrouped(f: Text, o: Text, x: Text, m1: Text, m2: Text, m3: Text, h: Text, e: Text)
    ensures [LBRACE] + (f + [COMMA] + (o + (x + m1)) + (m2 + (m3 + [LF]) + [COMMA, SPACE] + h)) + e
         == ([LBRACE] + f) + [COMMA] + o + (x + (m1 + m2 + m3)) + ([LF] + [COMMA, SPACE] + h + e)
  {
    var a, t := [LBRACE] + f + [COMMA] + o, [LF] + [COMMA, SPACE] + h + e;
    assert m2 + (m3 + [LF]) + [COMMA, SPACE] + h + e == m2 + m3 + t;
    assert x + m1 + (m2 + m3 + t) == x + (m1 + m2 + m3) + t;
    Assoc(a, x + (m1 + m2 + m3), t);
  }

  lemma AfterMeans()
    ensures FieldsOf(AFTER.elems, map[]) == map[FIRST := Value.Num(ONE)][ADDED := Value.Str(VALUE)]
  {
    hide FormedElem, ShowElem, KeyOf, ValueOf;
    E1Is();
    E2Is();
    E3Is();
    OneIs();
    var one: Fields := map[FIRST := Value.Num(ONE)];
    assert map[][FIRST := Value.Num(ONE)] == one && one[FIRST := Value.Num(ONE)] == one;
    assert FieldsOf(AFTER.elems, map[]) == FieldsOf(More(E2, More(E3, End)), one);
    assert FieldsOf(More(E2, More(E3, End)), one) == FieldsOf(More(E3, End), one);
    assert FieldsOf(More(E3, End), one) == FieldsOf(End, one[ADDED := Value.Str(VALUE)]);
  }

  lemma EndingIs()
    ensures IsOpening([]) && IsEnding(ENDING)
  {
    var c := ENDING[1..];
    assert c == [SLASH, SLASH, SPACE, STAR, SLASH, SPACE, RBRACE];
    FindIn(c, [], LF);
    assert c + [] == c;
    assert Find(c, LF) == 7;
    assert FirstPiece(c) == Piece(7);
    assert c[7..] == [];
    assert Skip(c) == Some(7);
  }

  /** The edit does not land, its key ends the comment, and what the comment held then makes up the merge. */
  lemma MergesByChance()
    ensures Upsert(TEXT, [ADDED], Json.Str(VALUE), false) == Some(NEXT) && !Lands(TEXT, [ADDED])
    ensures var before := ParsedValue(TEXT);
      && before.Some? && before.value.Obj?
      && ParsedValue(NEXT) == Some(Value.Obj(Merged(before.value.fields, [ADDED], Meaning(Json.Str(VALUE)), false)))
  {
    hide Show, Formed, ReadDocument, Clear, Matching, Upsert, IsOpening, IsEnding, ENDING, NEXT, TEXT;
    FileIs();
    FileReads();
    RootIs();
    LandsInComment();
    Edited();
    AfterIs();
    AfterMeans();
    EndingIs();
    DocumentReads([], AFTER, ENDING);
    assert [] + Show(AFTER) + ENDING == NEXT;
  }
}
