/** Whole files: the parser accepts exactly the texts of well-formed trees between trivia. */
module Documents {
  import opened Units
  import opened Trivia
  import opened Scalars
  import opened Syntax
  import opened Nodes

  /** What may precede a file's value: trivia, behind at most one byte order mark. */
  predicate IsOpening(p: Text) {
    IsGap(p) || (p != [] && p[0] == BOM && IsGap(p[1..]))
  }

  /** What may follow a file's value: trivia, whose last line comment the end of the file may close. */
  predicate IsEnding(e: Text) {
    Skip(e) == Some(|e|)
  }

  lemma GapHasNoMark(gap: Text)
    requires IsGap(gap) && gap != []
    ensures gap[0] != BOM
  {
  }

  lemma OpeningSkipped(p: Text, rest: Text)
    requires IsOpening(p) && rest != [] && rest[0] != SLASH && !IsBlank(rest[0]) && rest[0] != BOM
    ensures SkipFrom(p + rest, 0) == Some(|p|)
  {
    hide IsGap, Skip;
    var text := p + rest;
    SkipTokenAt(rest);
    if IsGap(p) {
      if p != [] { GapHasNoMark(p); }
      assert text[0] == if p != [] then p[0] else rest[0];
      assert text[0..] == text;
      SkipOver(p, rest);
    } else {
      assert text[1..] == p[1..] + rest;
      SkipOver(p[1..], rest);
    }
  }

  lemma OpeningIs(text: Text, start: nat)
    requires SkipFrom(text, 0) == Some(start) && start < |text|
    ensures IsOpening(text[..start])
  {
    hide IsGap, Skip;
    if text[0] == BOM {
      SkipTakesGap(text[1..], start - 1);
      assert text[..start][1..] == text[1..][..start - 1];
    } else {
      assert text[0..] == text;
      SkipTakesGap(text, start);
    }
  }

  lemma EndingEndsNumber(e: Text)
    requires IsEnding(e)
    ensures EndsNumber(e)
  {
  }

  /** The text of a well-formed tree between an opening and an ending is read as that tree. */
  lemma DocumentReads(p: Text, tree: Tree, e: Text)
    requires IsOpening(p) && Formed(tree) && IsEnding(e)
    ensures ReadDocument(p + Show(tree) + e) == Some(Document(|p|, tree))
  {
    hide IsOpening, Show, Formed, ReadTree, Skip, SkipFrom;
    var text := p + Show(tree) + e;
    TreeBegins(tree);
    EndingEndsNumber(e);
    TreeReads(tree, e);
    Assoc(p, Show(tree), e);
    Halves(p, Show(tree) + e);
    assert (Show(tree) + e)[0] == Show(tree)[0];
    OpeningSkipped(p, Show(tree) + e);
    Halves(p + Show(tree), e);
  }

  /** Whatever is read is such a text. */
  lemma DocumentIs(text: Text, d: Document)
    requires ReadDocument(text) == Some(d)
    ensures Formed(d.tree)
    ensures var end := d.start + |Show(d.tree)|;
      && end <= |text|
      && text == text[..d.start] + Show(d.tree) + text[end..]
      && IsOpening(text[..d.start]) && IsEnding(text[end..])
  {
    hide IsOpening, Show, Formed, ReadTree, Skip, SkipFrom;
    var s := text[d.start..];
    var n := ReadTree(s).value.len;
    TreeIsText(s, d.tree, n);
    OpeningIs(text, d.start);
    assert s[..n] == text[d.start..d.start + n];
  }
}
