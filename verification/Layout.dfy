/** What the text helpers of an edit yield: indentation, rendered values, and places to cut trivia. */
module Layout {
  import opened Units
  import opened Trivia
  import opened Json
  import opened Syntax
  import opened Nodes
  import opened Editor

  /** Spaces and tabs only. */
  predicate IsIndent(s: Text) {
    forall i :: 0 <= i < |s| ==> s[i] == SPACE || s[i] == TAB
  }

  predicate IsEol(eol: Text) {
    eol == [LF] || eol == [CR, LF]
  }

  predicate IsStyle(style: Style) {
    IsEol(style.eol) && IsIndent(style.unit) && style.unit != []
  }

  lemma {:induction false} IndentLenIsIndent(text: Text, at: nat, i: nat)
    requires at <= i < at + IndentLen(text, at)
    ensures At(text, i, SPACE) || At(text, i, TAB)
    decreases |text| - at
  {
    if at < i {
      IndentLenIsIndent(text, at + 1, i);
    }
  }

  lemma LineIndentIsIndent(text: Text, offset: nat)
    ensures IsIndent(LineIndent(text, offset))
  {
    var line := Slice(text, LineStart(text, offset), offset);
    var indent := LineIndent(text, offset);
    forall i | 0 <= i < |indent|
      ensures indent[i] == SPACE || indent[i] == TAB
    {
      IndentLenIsIndent(line, 0, i);
    }
  }

  lemma StyleIsStyle(text: Text, root: Node)
    requires root.members.Some?
    ensures IsStyle(StyleOf(text, root))
  {
    hide LineIndent;
    match FirstOnLine(text, root.members.value)
    case None =>
    case Some(nested) => LineIndentIsIndent(text, nested.keyStart);
  }

  // ----- Rendered values -----

  function RenderedTree(data: Json, style: Style, indent: Text, inline: bool): Tree {
    if inline then Printed(data, [], []) else Printed(data, Gap(style.unit), style.eol + indent)
  }

  /** A rendered value is the text of a well-formed tree that means the value. */
  lemma RenderedIsTree(data: Json, style: Style, indent: Text, inline: bool)
    requires IsStyle(style) && IsIndent(indent)
    ensures var t := RenderedTree(data, style, indent, inline);
      Show(t) == Render(data, style, indent, inline) && Formed(t) && ValueOf(t) == Meaning(data)
  {
    hide Show, Formed, ValueOf, Meaning, Serialize, Printed;
    if inline {
      PrintedIsSerialized(data, [], []);
    } else {
      ReplaceSerialized(data, Gap(style.unit), [LF], style.eol + indent);
      assert ReplaceLines([LF], style.eol + indent) == style.eol + indent;
      PrintedIsSerialized(data, Gap(style.unit), style.eol + indent);
    }
  }

  // ----- Cutting trivia -----

  /** Whole trivia, but that a line comment may still be open at its end, closed by a line break. */
  lemma {:induction false} LineBreakCloses(s: Text, more: Text)
    requires Skip(s) == Some(|s|) && more != [] && IsBlanks(more) && LF in more
    ensures IsGap(s + more)
    decreases |s|
  {
    hide IsClosed, FirstPiece;
    if s == [] {
      assert s + more == more;
      BlanksAreGap(more);
    } else {
      PieceThenBreak(s, more);
      var n := FirstPiece(s + more).len;
      if n <= |s| {
        assert (s + more)[n..] == s[n..] + more;
        LineBreakCloses(s[n..], more);
      } else {
        assert (s + more)[n..] == more[n - |s|..];
        BlanksAreGap(more[n - |s|..]);
      }
    }
  }

  /** The first piece of trivia that a line break follows: itself, or reaching up to the line feed. */
  lemma PieceThenBreak(s: Text, more: Text)
    requires s != [] && Skip(s) == Some(|s|) && more != [] && IsBlanks(more) && LF in more
    ensures var p, q := FirstPiece(s), FirstPiece(s + more);
      && p.Piece? && q.Piece? && IsClosed(s + more, q)
      && (q.len <= |s| ==> p == q && Skip(s[q.len..]) == Some((|s| - q.len) as nat))
  {
    hide FirstPiece, Skip, IsClosed;
    SkipFirst(s);
    if IsClosed(s, FirstPiece(s)) {
      PieceBefore(s, more);
    } else {
      OpenThenBreak(s, more);
    }
  }

  lemma OpenThenBreak(s: Text, more: Text)
    requires FirstPiece(s).Piece? && !IsClosed(s, FirstPiece(s)) && LF in more
    ensures FirstPiece(s + more).Piece? && IsClosed(s + more, FirstPiece(s + more))
    ensures FirstPiece(s + more).len <= |s| ==> FirstPiece(s + more) == FirstPiece(s)
  {
    hide CloseFrom;
    FindIn(s, more, LF);
    assert (s + more)[0] == s[0] && (s + more)[1] == s[1];
  }

  lemma SkipFirst(s: Text)
    requires s != [] && Skip(s) == Some(|s|)
    ensures FirstPiece(s).Piece? && Skip(s[FirstPiece(s).len..]) == Some((|s| - FirstPiece(s).len) as nat)
  {
    hide FirstPiece, Skip;
    SkipUnfolds(s);
  }

  predicate StartsBreak(s: Text) {
    s != [] && (s[0] == LF || StartsWith2(s, CR, LF))
  }

  /** A gap cut in front of a line break, where what precedes the cut is whole trivia, leaves a gap. */
  lemma {:induction false} CutBeforeBreak(gap: Text, k: nat)
    requires IsGap(gap) && k <= |gap| && Skip(gap[..k]) == Some(k) && (k == 0 || StartsBreak(gap[k..]))
    ensures IsGap(gap[k..])
    decreases k
  {
    hide IsClosed, FirstPiece;
    if k == 0 {
      assert gap[0..] == gap;
    } else {
      SkipFirst(gap[..k]);
      PieceBeforeBreak(gap, k);
      var n := FirstPiece(gap).len;
      if n <= k {
        assert gap[n..][..k - n] == gap[..k][n..];
        assert gap[n..][k - n..] == gap[k..];
        CutBeforeBreak(gap[n..], k - n);
      } else {
        GapAfterReturn(gap, k);
      }
    }
  }

  /** The first piece of the gap and of what precedes the cut are the same, or a line comment took in a carriage return. */
  lemma PieceBeforeBreak(gap: Text, k: nat)
    requires IsGap(gap) && 0 < k < |gap| && Skip(gap[..k]) == Some(k) && StartsBreak(gap[k..])
    ensures var p, q := FirstPiece(gap), FirstPiece(gap[..k]);
      && p.Piece? && IsGap(gap[p.len..])
      && (p.len <= k ==> p == q)
      && (p.len > k ==> gap[k] == CR && p.len == k + 1)
  {
    hide FirstPiece, Skip, IsClosed;
    var s := gap[..k];
    assert gap == s + gap[k..];
    SkipFirst(s);
    if IsClosed(s, FirstPiece(s)) {
      PieceBefore(s, gap[k..]);
    } else {
      OpenBeforeBreak(s, gap[k..]);
    }
  }

  lemma OpenBeforeBreak(s: Text, more: Text)
    requires FirstPiece(s).Piece? && !IsClosed(s, FirstPiece(s)) && StartsBreak(more)
    ensures var p := FirstPiece(s + more);
      p.Piece? && if more[0] == LF then p == FirstPiece(s) else more[0] == CR && p.len == |s| + 1
  {
    hide CloseFrom;
    FindIn(s, more, LF);
    assert (s + more)[0] == s[0] && (s + more)[1] == s[1];
    if more[0] == CR {
      assert more[1..][0] == LF;
    }
  }

  lemma GapAfterReturn(gap: Text, k: nat)
    requires k + 1 <= |gap| && gap[k] == CR && IsGap(gap[k + 1..])
    ensures IsGap(gap[k..])
  {
    assert gap[k..][1..] == gap[k + 1..];
    assert FirstPiece(gap[k..]) == Piece(1);
  }
}
